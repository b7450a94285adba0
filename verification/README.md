# Grid plugin reconciliation, modelled in Dafny

This project models the reporting core of pwnagotchi's `grid` plugin
(`pwnagotchi/plugins/default/grid.py`). When the unit gets internet access,
the plugin does four things:

- it pushes its session data to the local `pwngrid-peer` service;
- it reads the inbox counters;
- it looks at the handshake capture files (`*.pcap`);
- it reports to the service every network it has not reported before, unless
  the operator's exclusion rules forbid it.

The ids of reported networks go into a ledger (`/root/.api-report.json`,
field `reported`). An id is appended right after the service accepts its
report.

Modules, leaf to root:

- `Wrappers` (`wrappers.dfy`): `Option` and `Result`.
- `Text` (`text.dfy`): the Python string operations the plugin uses, over
  `seq<char>`. These are ASCII `lower()`, `replace(x, '')`, substring `in`,
  `split('_')` and `':'.join(...)`.
- `Ident` (`ident.dfy`): `parse_pcap`. It covers the raw id of a capture file,
  the `ESSID_BSSID` split and the regrouping of the compact address into
  colon-separated pairs. The pcap content parser is an input whose answer
  replaces the file-name fallback.
- `Exclusion` (`exclusion.dfy`): `is_excluded`.
- `Inbox` (`inbox.dfy`): the unread and total message counters.
- `Grid` (`grid.dfy`): one pass of `on_internet_available`, as a fold over the
  enumerated capture file names. Its inputs are the file names, the prior
  ledger, the options (`report`, `exclude`) and a `Service` value. The
  `Service` value answers every outside call:
  - the `/data` push;
  - the `/inbox` read;
  - the pcap content parser;
  - each `/report/ap` post.

  The pass returns:
  - the new ledger;
  - every report it made, with its outcome;
  - the counters (`None` when they were not updated);
  - how the pass ended.

Two behaviours of the code are easy to misread:

- An id with two or more `_` does not fall back to an empty network name.
  `essid, bssid = net_id.split('_')` raises `ValueError` (grid.py:38). That
  line is outside the `try` of `parse_pcap`, so the exception reaches the
  pass-level handler (grid.py:200-201) and ends the pass. Ledger entries
  appended earlier in the pass stay, because they were already written.
  `Grid.Pass` ends with `UnpackFailed` in that case
  (`Grid.PassRaisesAfterPrefix`, `Grid.RaiseKeepsEarlierReport`).
- Nothing makes the hardware address six octets long. It is whatever the
  pairing of the compact form produces, possibly empty. Such files are
  skipped.

## Model

| member | source | states |
|---|---|---|
| `Text.Lower` | pwnagotchi/plugins/default/grid.py:61-62 | ASCII `lower()` keeps the length and lower-cases each character; `Text.LowerAppend` and `Text.LowerIdempotent` give that it works piecewise and that a second application changes nothing |
| `Text.Contains` | pwnagotchi/plugins/default/grid.py:63 | Python's substring `in`: some index of the string starts a copy of the pattern, so `""` is in every string; `Text.ContainsWithin`, `Text.ContainsSelf` and `Text.NotContainsHead` carry its properties |
| `Text.RemoveAll` | pwnagotchi/plugins/default/grid.py:34 | `replace('.pcap', '')` returns the string unchanged exactly when the pattern does not occur in it, and otherwise removes at least one whole copy; `Ident.NetIdSplices` shows that every occurrence goes |
| `Text.Split` | pwnagotchi/plugins/default/grid.py:38 | `split('_')` yields one more piece than there are separators, and no piece contains the separator |
| `Text.JoinSplit` | pwnagotchi/plugins/default/grid.py:38 | joining the pieces of a split with the separator gives back the string |
| `Text.SplitJoin` | pwnagotchi/plugins/default/grid.py:38 | splitting a join of separator-free pieces gives back the pieces |
| `Text.Join` | pwnagotchi/plugins/default/grid.py:44 | `':'.join(...)`: its properties are the round trips `Text.JoinSplit` and `Text.SplitJoin` with `Text.Split` |
| `Text.RemoveChar` | pwnagotchi/plugins/default/grid.py:63 | `replace(':', '')` leaves no `:` and shortens the string by exactly the number of `:` it held |
| `Ident.NetId` | pwnagotchi/plugins/default/grid.py:34 | the raw id of a file name is the name itself exactly when the name holds no `.pcap`; `Ident.NetIdSplices` and `Ident.NetIdOfStem` give the rest |
| `Ident.NetIdSplices` | pwnagotchi/plugins/default/grid.py:34 | every `.pcap` in the base name is removed, not only a final one: the raw id of `x.pcapy` is the raw id of `x` followed by that of `y` |
| `Ident.NetIdOfStem` | pwnagotchi/plugins/default/grid.py:34 | removing `.pcap` from `stem.pcap` gives `stem` back when the stem holds no `.pcap` of its own |
| `Ident.SplitId` | pwnagotchi/plugins/default/grid.py:36-41 | the two-name unpacking fails exactly when the id holds two or more `_`. Without `_`, the name is empty and the compact address is the whole id. With one `_`, name, `_` and address make up the id, and neither part holds `_` |
| `Ident.SplitIdJoin` | pwnagotchi/plugins/default/grid.py:36-41 | a `_`-free name and address joined by `_` split back into the same two fields |
| `Ident.Pairs` | pwnagotchi/plugins/default/grid.py:43-44 | `zip(it, it)` gives `len/2` pairs, the k-th being characters 2k and 2k+1, so a trailing odd character is dropped |
| `Ident.Canonical` | pwnagotchi/plugins/default/grid.py:43-44 | the colon-separated address; `Ident.CanonicalEmpty`, `Ident.CanonicalUncolon` and `Ident.CanonicalOctets` carry its properties |
| `Ident.CanonicalEmpty` | pwnagotchi/plugins/default/grid.py:43-44 | the canonical address is empty exactly when the compact form has fewer than two characters |
| `Ident.CanonicalUncolon` | pwnagotchi/plugins/default/grid.py:43-44 | removing the colons of the canonical address gives the longest even-length prefix of a colon-free compact form |
| `Ident.CanonicalOctets` | pwnagotchi/plugins/default/grid.py:43-44 | splitting the canonical address at `:` gives back the character pairs of a colon-free compact form |
| `Ident.CanonicalExample` | pwnagotchi/plugins/default/grid.py:43-44 | `aabbccddeeff` becomes `aa:bb:cc:dd:ee:ff` |
| `Ident.ParsePcap` | pwnagotchi/plugins/default/grid.py:31-56 | `parse_pcap` raises exactly when the raw id holds two or more `_`, whatever the content parser does. When the content parser succeeds, its values are the result; when it fails, `Ident.ParseFallbackId` and `Ident.ParseFallbackNoNameId` give the value from the raw id |
| `Ident.ParseFallback` | pwnagotchi/plugins/default/grid.py:31-56 | when content parsing fails, `ESSID_BSSID.pcap` yields the name and the canonical form of the compact address, when the stem holds no `.pcap` |
| `Ident.ParseFallbackId` | pwnagotchi/plugins/default/grid.py:34-56 | when content parsing fails, a file whose raw id is `ESSID_BSSID` yields that name and the canonical form of the compact address, even when `.pcap` was removed from inside the name |
| `Ident.ParseFallbackNoNameId` | pwnagotchi/plugins/default/grid.py:34-56 | when content parsing fails, a file whose raw id holds no `_` yields an empty name and the canonical form of the raw id |
| `Ident.ParseFallbackNoName` | pwnagotchi/plugins/default/grid.py:31-56 | when content parsing fails, `BSSID.pcap` yields an empty name and the canonical form of the compact address, when the stem holds no `.pcap` |
| `Ident.ParseExampleNamed` | pwnagotchi/plugins/default/grid.py:34-56 | `MyNet_aabbccddeeff.pcap` without content parsing yields (`MyNet`, `aa:bb:cc:dd:ee:ff`) |
| `Ident.ParseExampleUnnamed` | pwnagotchi/plugins/default/grid.py:34-56 | `aabbccddeeff.pcap` without content parsing yields (`""`, `aa:bb:cc:dd:ee:ff`) |
| `Ident.ParseAmbiguous` | pwnagotchi/plugins/default/grid.py:36-38 | a name with `_` in it, as in `My_Net_aabbccddeeff.pcap`, makes parsing raise, whatever the content parser finds |
| `Exclusion.RuleMatches` | pwnagotchi/plugins/default/grid.py:61-63 | one rule's test; `Exclusion.IsExcluded` states the loop over it, and `Exclusion.RuleExcludesItself`, `Exclusion.BlankRuleExcludesAll` and `Exclusion.AddressRuleCoversBothForms` its properties |
| `Exclusion.IsExcluded` | pwnagotchi/plugins/default/grid.py:59-65 | the rule loop is true iff some rule, lower-cased, occurs in the lower-cased candidate, either as written or with its `:` removed; an empty rule list gives false |
| `Exclusion.ExcludedAppend` | pwnagotchi/plugins/default/grid.py:59-65 | the verdict for two concatenated rule lists is the disjunction of their verdicts |
| `Exclusion.ExcludedIgnoresCase` | pwnagotchi/plugins/default/grid.py:61-62 | lower-casing a candidate first does not change its verdict |
| `Exclusion.ExcludedWithin` | pwnagotchi/plugins/default/grid.py:63 | an excluded candidate stays excluded inside any longer candidate |
| `Exclusion.RuleExcludesItself` | pwnagotchi/plugins/default/grid.py:63 | a rule excludes every candidate equal to it up to case, or up to case and the rule's colons |
| `Exclusion.BlankRuleExcludesAll` | pwnagotchi/plugins/default/grid.py:63 | a rule that is empty once its colons are removed (`""`, `":"`) excludes every candidate |
| `Exclusion.AddressRuleCoversBothForms` | pwnagotchi/plugins/default/grid.py:61-63 | a hardware-address rule excludes that address in any case, colon-separated or compact |
| `Exclusion.MacRuleExample` | pwnagotchi/plugins/default/grid.py:59-65 | rule `AA:BB:CC:DD:EE:FF` excludes both `aa:bb:cc:dd:ee:ff` and `aabbccddeeff` |
| `Exclusion.CompactRuleExample` | pwnagotchi/plugins/default/grid.py:59-65 | the candidate keeps its colons: rule `aabbccddeeff` does not exclude `aa:bb:cc:dd:ee:ff` |
| `Inbox.UnreadCount` | pwnagotchi/plugins/default/grid.py:160 | unread is at most the message count. It is zero iff every message has a `seen_at`, and equals the count iff none has |
| `Inbox.Tally` | pwnagotchi/plugins/default/grid.py:158-160 | total is the number of messages, and unread is the number of messages whose `seen_at` is `None`, so never more than total |
| `Inbox.UnreadAppend` | pwnagotchi/plugins/default/grid.py:160 | the unread count of two parts of an inbox adds up |
| `Inbox.UnreadIsMultiplicity` | pwnagotchi/plugins/default/grid.py:160 | unread is the number of messages whose `seen_at` is `None`, whatever their order |
| `Inbox.TallyExample` | pwnagotchi/plugins/default/grid.py:158-160 | three messages, two of them seen, give unread 1 of total 3 |
| `Grid.Visit` | pwnagotchi/plugins/default/grid.py:180-196 | the loop body skips a file as already reported exactly when its id is in the ledger. A report it makes is for the file's own id, not yet in the ledger, with the parsed network and past every exclusion check. It raises exactly for a new, non-excluded id with two or more `_`. It reports every new eligible file |
| `Grid.VisitHonest` | pwnagotchi/plugins/default/grid.py:181-193 | the loop body reports a file only under its own id and only when that id is not yet in the ledger |
| `Grid.Pass` | pwnagotchi/plugins/default/grid.py:144-201 | the prior ledger is a prefix of the new one, and the counters are updated exactly when the push and the inbox read succeeded; the lemmas `Grid.PassLedger` (ledger), `Grid.PassAttemptOrder` (reports, at most one per file, in order), `Grid.PassStatus` (early returns and counters), `Grid.PassQuiet` (gate), `Grid.PassDisclosures` (what is reported), `Grid.PassComplete` (a completed loop) and `Grid.PassRaises` with `Grid.PassRaisesAfterPrefix` (a raising loop) state the rest |
| `Grid.Run` | pwnagotchi/plugins/default/grid.py:180-194 | the capture loop only extends the ledger and the list of reports. It ends normally or at the unpacking exception |
| `Grid.RunAppended` | pwnagotchi/plugins/default/grid.py:192-194 | the ids the loop appends are exactly the ids of the accepted reports, in the order of the reports |
| `Grid.RunFresh` | pwnagotchi/plugins/default/grid.py:182-193 | each id appended was absent from the ledger at that moment, because the membership test reads the growing list |
| `Grid.RunAttempts` | pwnagotchi/plugins/default/grid.py:180-192 | every report the loop makes is the loop body's decision for an enumerated file, against a ledger that extends the starting one |
| `Grid.RunOrder` | pwnagotchi/plugins/default/grid.py:180-194 | the appended ids follow the enumeration order of their files |
| `Grid.RunAttemptOrder` | pwnagotchi/plugins/default/grid.py:180-192 | with an honest loop body, the reports the loop makes follow the enumeration order, one at most per file: a refused report is not retried |
| `Grid.RunRaisesAfterPrefix` | pwnagotchi/plugins/default/grid.py:180-201 | a loop that raises ends with exactly the ledger and reports of a completed loop over the files before the raising one, and the raising file's body raised against that ledger |
| `Grid.RunSettles` | pwnagotchi/plugins/default/grid.py:180-196 | a loop that runs to its end has dealt with every file: skipped it, or made a report that is recorded and, if accepted, in the ledger |
| `Grid.RunStops` | pwnagotchi/plugins/default/grid.py:187-201 | a loop that ends early ends at a file whose loop body raised against the ledger as it then stood |
| `Grid.PassLedger` | pwnagotchi/plugins/default/grid.py:170-194 | the prior ledger is a prefix of the new one. The appended ids are those of the accepted reports. Each was new when appended. They follow enumeration order |
| `Grid.PassKeepsDistinct` | pwnagotchi/plugins/default/grid.py:182-194 | a ledger without duplicates stays without duplicates |
| `Grid.PassDisclosures` | pwnagotchi/plugins/default/grid.py:180-192 | every report is for an enumerated file whose id is not in the prior ledger and is not excluded. The file has a non-empty address, and neither its name nor its address is excluded. The report carries the network parsed from that file |
| `Grid.PassQuiet` | pwnagotchi/plugins/default/grid.py:149-198 | no report and an unchanged ledger when the push fails, the inbox fails, reporting is off, or the files are no more than the ledger entries |
| `Grid.PassStatus` | pwnagotchi/plugins/default/grid.py:149-160 | the pass ends at the push failure exactly when the push failed, and at the inbox failure exactly when only the inbox failed. The counters are updated exactly when both succeeded; they are then the message count and the number of messages without `seen_at` |
| `Grid.PassComplete` | pwnagotchi/plugins/default/grid.py:180-196 | when the loop runs to its end, every eligible file is in the ledger or its report was refused: a refused report does not stop the others |
| `Grid.PassRaises` | pwnagotchi/plugins/default/grid.py:187-201 | a pass that raises does so at a new, non-excluded file whose id holds two or more `_`, and that id is not in the ledger |
| `Grid.PassAttemptOrder` | pwnagotchi/plugins/default/grid.py:180-192 | a pass reports each enumerated file at most once, in enumeration order |
| `Grid.PassRaisesAfterPrefix` | pwnagotchi/plugins/default/grid.py:180-201 | a pass that raises keeps what it did before: the files before the raising one form a completed loop with the pass's ledger and reports, every eligible one of them is in the ledger or was refused, and no later file is looked at |
| `Grid.RaiseKeepsEarlierReport` | pwnagotchi/plugins/default/grid.py:180-201 | for files `[a, b]`, an accepted new eligible `a` followed by a new, non-excluded ambiguous `b` leaves `a`'s id in the ledger and ends the pass at `b` |
| `Grid.RaisesOnAmbiguousId` | pwnagotchi/plugins/default/grid.py:180-201 | a new, non-excluded first file whose id holds two or more `_` ends the pass before any report |
| `Grid.PassCompletedNoAmbiguous` | pwnagotchi/plugins/default/grid.py:180-201 | a pass whose loop runs to its end leaves every enumerated id in the ledger, excluded, or with fewer than two `_` |
| `Grid.AmbiguousIdAborts` | pwnagotchi/plugins/default/grid.py:180-201 | a new, non-excluded file anywhere in the enumeration whose id holds two or more `_` makes the pass end with the unpacking exception |
| `Grid.PassIdempotent` | pwnagotchi/plugins/default/grid.py:180-182 | when every file's id is already in the ledger, a pass reports nothing and leaves the ledger unchanged |
| `Grid.SecondPassQuiet` | pwnagotchi/plugins/default/grid.py:168-194 | after a pass whose loop ran to its end with every report accepted, a second pass over the same files, options and content parser reports nothing and keeps the ledger |
| `Grid.NoResubmission` | pwnagotchi/plugins/default/grid.py:170-194 | an id in the ledger after one pass is never reported by the next pass |
| `Grid.StaleEntryExample` | pwnagotchi/plugins/default/grid.py:168-174 | the gate compares counts: with one ledger entry for a deleted file, a new eligible file is not reported |
| `Grid.CurrentLedgerOpensGate` | pwnagotchi/plugins/default/grid.py:168-174 | a duplicate-free ledger whose entries are all ids of present files opens the gate as soon as one file is new |
| `Grid.CurrentLedgerReportsNewCaptures` | pwnagotchi/plugins/default/grid.py:168-196 | with such a ledger, a pass that runs to its end puts every eligible new file in the ledger or records its refused report |

## Left out

- `grid_call`, the HTTP transport and `grid_update_data` (grid.py:68-109)
  are network I/O, file reads and a shell call. They are replaced by the
  `Service` answers: whether `/data` succeeded, the `/inbox` messages, and
  whether each `/report/ap` call returned without raising: status 200 and
  a JSON body, with no transport exception.
- `extract_from_pcap` (grid.py:52) is a parser that is not part of this model.
  It is the `Service.extract` answer per file name, `None` when it raises.
- `glob` enumeration (grid.py:168) and the `StatusFile` ledger (grid.py:21,
  170, 194) are filesystem I/O. The pass takes the base names of the
  enumerated files and the prior ledger, and returns the new ledger. The
  directory part of the paths is not modelled.
- `on_ui_update`, `on_loaded` and logging (grid.py:27-28, 129-141, 162-164)
  are presentation. The UI call at grid.py:163 is assumed not to raise.
- The globals `OPTIONS`, `UNREAD_MESSAGES` and `TOTAL_MESSAGES` become
  parameters and results. A missing `report` or `exclude` option (a
  `KeyError` in the source) is not modelled.
- A missing `messages` key, or a message without a `seen_at` key, raises a
  `KeyError` in the source. The model folds this into the inbox answer
  `None`. In the source, `TOTAL_MESSAGES` has already been set when
  `seen_at` is missing; the model does not keep that partial update.
- `Text.Lower` models only ASCII lower-casing. Python's `str.lower` also
  folds non-ASCII letters.
- `Ident.CanonicalUncolon` and `Ident.CanonicalOctets` require a colon-free
  compact form. With a `:` in the file name, the colons removed include the
  file name's own, so the prefix property does not hold.
- Values of the content parser other than a name and an address, such as a
  missing key or `None` fields, are not modelled.
