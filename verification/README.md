# SAMFSCON backend: model and proofs

SAMFSCON is a web console for Samba file servers. This project models the parts of its backend
in which a wrong answer silently changes who may do what, and proves what they promise over every
input, every run and every interleaving.

| part | modules | subject |
|---|---|---|
| SDDL editor | `Rights`, `RightsMeaning`, `Sddl`, `SddlMeaning`, `SddlLaws`, `SddlRoundTrip`, `SddlLimits` | the parser and printer of security descriptors, in the format of section 2.5.1.1 of [MS-DTYP] |
| effective access | `Bits`, `Access` | access masks (section 2.4.3 of [MS-DTYP]), generic rights, denials, the share bounding the file |
| lock-out gate | `Addresses`, `Hosts`, `HostsMeaning`, `HostsReading`, `HostsLaws` | the three-valued verdict on `hosts allow` / `hosts deny` and the gate in front of a change |
| session worker | `Protocol`, `ProtocolLaws`, `Worker` | one queue and one thread per session, time-outs that do not cancel, reconnecting reads, writes called once, queued teardown |
| configuration store | `ShareConf`, `ShareConfLaws`, `Registry`, `RegistryLaws`, `Shares`, `ShareLaws`, `ShareGates` | option normal forms, diff and apply with an audit record, creating, updating and deleting shares |
| clocked objects | `RateLimit`, `Throttle`, `Sessions`, `Cache` and their `…Laws` | sliding window, sign-in throttle, session lifetime and credentials, bounded cache |
| the rest | `Paging`, `Krb5`, `Krb5Lines`, `Krb5Rendering`, `Krb5Laws` | paging loops, merging of KDC lists |

`Text`, `Numerals` and `Outcomes` hold the string operations, numerals and result types the others use.

Code that loops or updates objects is written as methods and classes. Each method is tied by its
`ensures` to a function of its inputs or of the old state, and the main results are lemmas about
those functions. What a code, a hosts entry, an option value, a share operation or a line of the Kerberos
file means is stated once more on its own, from the text and in numbers, in `RightsMeaning`, `SddlMeaning`,
`HostsMeaning`, `ShareConfLaws`, `ShareGates` and `Krb5Lines`, and the functions are proved to agree with it.
In the worker a ghost `trail` records which actions of the transition system
in `Protocol` each method performed, so every theorem about runs holds for every worker object.

Clocks are exact reals, where the source has floats and `datetime` values.

## Where code and documentation differ

The model follows the code.

- Entries are lost on parsing, although the parser's own description says none is (`acl.py:237-240`):
  those with fewer than six fields (`acl.py:366-369`); those with a condition or an attribute in
  parentheses of its own, because only innermost parentheses are read (`acl.py:224`); and the one with
  "S:" anywhere in it and all behind it, because the first such mark is taken for the SACL's
  (`acl.py:540-542`). `SddlLimits.SurvivorsIff` and `SddlLimits.NothingLostIff` say exactly which entries
  survive; `SddlLimits.ConditionLost`, `SddlLimits.CallbackDenialLost`, `SddlLimits.LostBehindMark` and
  `SddlLimits.DenialLostBehindMark` show what is lost, and `SddlLimits.ConditionRead` that six fields
  inside a condition are read as an entry.
- Only types that start with `D` are read as denials (`acl.py:373`), and the two GUIDs of an entry are not
  read at all (`acl.py:364-384`). An object entry (`OA` or `OD`) comes back from a save as a grant of the
  same rights without the limit its GUIDs set: `SddlLimits.DenialsExact`, `SddlLimits.ObjectAceWidens`.
- A `P` among the DACL flags counts only when it comes first or last (`acl.py:258`); elsewhere
  the protection is lost on saving: `SddlLimits.ProtectedWhenFirstOrLast`, `SddlLimits.ProtectionLost`.
- An owner or group with a line break is not read back, and one that is left out can be read out of other
  text: `SddlLimits.SectionsKeptIff` says exactly when both are kept.
- A second save can change the text again: where an owner begins like the group it stands beside, where a
  mark of a section that is left out stands in another text, and where an owner or group that begins like
  a DACL carries a P or entries of its own: `SddlRoundTrip.StableIff`, `SddlRoundTrip.StableOnOneLine`,
  `SddlLimits.NestedMarkDrifts`, `SddlLimits.OwnDaclNeeded`.
- An allow list made only of separators counts as covering the console whatever the deny list says
  (`globalconf.py:1164-1167`): `HostsLaws.SeparatorsOnlyExact`, `HostsLaws.CommaLocksOut`.
- The gate refuses some changes under which Samba would still admit the console, because it does not
  look at the deny list once there is an allow list: `HostsLaws.RefusalExact`.
- Creating a share asks the server a second time after the key is written, outside the clean-up
  (`shares.py:235`), so a creation can fail and leave its section behind; and the clean-up of a failed
  write deletes a section that was there before: `ShareLaws.FailedCreateRestoresIff`,
  `ShareLaws.UnconfirmedStays`, `ShareLaws.LeftoverDeleted`. A creation also inherits what such a
  section holds: `ShareLaws.CreateStoresExactly`.
- Option names settle after one normalisation exactly when no underscore stands at either end
  (`registry.py:262`). So an option called `_path` passes the check and then replaces the path of a
  new share (`ShareLaws.PathKeptIff`, `ShareLaws.UnderscorePath`), a checked form passes the check again
  unchanged exactly when no submitted name is of that kind (`ShareConfLaws.FormsSettleIff`), and writing
  recorded old values back restores a section exactly when normalising the recorded names leaves them as
  they are (`RegistryLaws.UndoRestoresIff`).
- Two spellings of one option in one request are both compared with the value read before the first
  write, so the later one can be lost: `RegistryLaws.OverlayIff`, `RegistryLaws.SecondNameLost`.
- A walk over a section's values that breaks off keeps what it has (`registry.py:396-409`), so a write can
  overlook an option it was asked to delete: `RegistryLaws.PartlySeenIff`.
- Sign-in checks that pass before an earlier outcome is recorded take a counter past the throttle's
  limit, by one less than the number of checks waiting: `ThrottleLaws.BoundedIff`,
  `ThrottleLaws.OutstandingBounds`, `ThrottleLaws.TwoChecksAtOnce`.
- A failed write of the Kerberos configuration is not made good by repeating the call:
  `Krb5Laws.FailedWriteNotRetried`, `Krb5Laws.StaleFile`.

## Model

| member | source | states |
|---|---|---|
| Rights.UnderstoodIff | backend/samfscon/srv/acl.py:413-450 | a rights field is reported as understood if and only if it is empty, a hexadecimal number, a decimal number, or a run of known two-letter codes |
| Rights.DecimalRoundTrip | backend/samfscon/srv/acl.py:433-436 | every decimal number is read as that mask, fully understood |
| Rights.ParseLetters | backend/samfscon/srv/acl.py:439-450 | the loop over two-letter codes accumulates the known ones and remembers an unknown one |
| Rights.LettersUnderstood | backend/samfscon/srv/acl.py:416-422 | a run of letters is reported as understood if and only if every pair in it is known |
| Rights.LettersBits | backend/samfscon/srv/acl.py:416-422 | its mask has a bit if and only if some known pair gives it, for any table of codes; `RightsMeaning.RunMeans` says it for the codes of the format, in numbers |
| Rights.RightsRoundTrip | backend/samfscon/srv/acl.py:465-476 | every mask, of any size, is printed as text that reads back as that mask, fully understood, and that text can stand as one field |
| Rights.RenderInjective | backend/samfscon/srv/acl.py:465-476 | two masks never share a spelling, across letters and padded hex |
| RightsMeaning.CodeMeans | backend/samfscon/srv/acl.py:389-402 | each of the twelve codes is read as its number (GA 0x10000000, GR 0x80000000, GW 0x40000000, GX 0x20000000, SD 0x10000, RC 0x20000, WD 0x40000, WO 0x80000, FA 0x1F01FF, FR 0x120089, FW 0x120116, FX 0x1200A0), fully understood, and that number is written as the code |
| RightsMeaning.OthersAreHex | backend/samfscon/srv/acl.py:465-476 | every other number is written in hexadecimal, zero-filled to eight digits |
| RightsMeaning.RunMeans | backend/samfscon/srv/acl.py:413-450 | a run of codes grants a right if and only if one of its codes stands for it, and is understood if and only if each stands for something |
| Rights.ParsePairs | backend/samfscon/srv/acl.py:453-462 | the flag loop reads pair by pair, ignoring what it does not know and an odd last character |
| Rights.RenderTable | backend/samfscon/srv/acl.py:479-489 | the flag printer writes the set flags in table order and never the inherited mark |
| Rights.FlagsRoundTrip | backend/samfscon/srv/acl.py:453-489 | flags written and read back keep the four inheritance flags and nothing else |
| RightsMeaning.FlagsRead | backend/samfscon/srv/acl.py:404-410 | a flag is read if and only if its code (OI 1, CI 2, NP 4, IO 8, ID 16) stands at an even place of the text |
| RightsMeaning.FlagsWritten | backend/samfscon/srv/acl.py:479-489 | the flags are written as the codes of the set ones in the order OI, CI, NP, IO, without ID |
| Sddl.SplitSections | backend/samfscon/srv/acl.py:524-544 | the text before the entries and the text of the entries, or a refusal without a DACL |
| Sddl.ParseAce | backend/samfscon/srv/acl.py:364-384 | an entry from six or more fields, nothing from fewer |
| Sddl.ParseDescriptor | backend/samfscon/srv/acl.py:234-259 | the imperative parser computes the specification `Parse` on every text |
| Sddl.BuildSddl | backend/samfscon/srv/acl.py:492-521 | the imperative printer computes the specification `Build`, skipping inherited entries |
| SddlMeaning.EntryMeans | backend/samfscon/srv/acl.py:364-384 | the first field of an entry says deny if and only if its first character that is no space is a D; a flag is set by its code in the second, a right by a code in the third, and the sixth names the account |
| SddlMeaning.EntryWritten | backend/samfscon/srv/acl.py:509-518 | the whole text an entry is written with |
| SddlMeaning.ExplicitCount | backend/samfscon/srv/acl.py:509-511 | the entries written are exactly those without the inherited mark, each as often as it occurs |
| SddlLaws.ParseSpell | backend/samfscon/srv/acl.py:224-259 | for every text put together from an owner, a group, DACL flags, entries of any type (with GUIDs, conditions, attributes, colons, SACL marks) and a SACL, whose owner and group do not collide, the parser gives exactly that owner and group, the protection as read from the flags, and the flat entries before the first SACL mark in order; of an entry with a condition, or cut by the mark, only what its condition holds |
| SddlLaws.OwnerFound | backend/samfscon/srv/acl.py:224-231 | the owner, if any, is found whole, whichever sections follow, and none is found where there is none |
| SddlLaws.GroupFound | backend/samfscon/srv/acl.py:224-231 | the same for the group, behind any owner |
| SddlLaws.DaclSplit | backend/samfscon/srv/acl.py:524-544 | everything up to the first entry, and the entries up to the first SACL mark, whatever the entries hold |
| SddlLaws.EntriesBack | backend/samfscon/srv/acl.py:223-224 | the entries of a list are read one by one, in order, and of nested parentheses only the innermost |
| SddlRoundTrip.RoundTrip | backend/samfscon/srv/acl.py:492-521 | for every descriptor with clean fields and marks that do not collide, parsing what was printed gives the same owner, group and protection, and in order exactly its own entries, without the inherited ones |
| SddlRoundTrip.ColonFreeFits | backend/samfscon/srv/acl.py:224-231 | without colons in its texts no marks of a descriptor collide |
| SddlRoundTrip.SettledKeeps | backend/samfscon/srv/acl.py:492-521 | an explicit entry with only known flags loses nothing: kind, flags, trustee, mask and the understood mark are as before |
| SddlRoundTrip.SavingIsStable | backend/samfscon/srv/acl.py:492-521 | for any text whose marks fit, once saved, parsing and printing again gives the same text, and each explicit entry keeps its mask, or its rights text where that was not understood |
| SddlRoundTrip.StableIff | backend/samfscon/srv/acl.py:224-258 | for every text a second save changes nothing if and only if owner and group do not collide in what is saved and, where one of them begins like a DACL, they bring no P and no entries of their own into it |
| SddlRoundTrip.StableOnOneLine | backend/samfscon/srv/acl.py:224-258 | for what is saved on one line the condition is on the texts of the descriptor alone: the owner does not begin like the group beside it, and owner, group and entries hold no mark of a section that is left out |
| SddlRoundTrip.GrammarSettles | backend/samfscon/srv/acl.py:234-259 | every text of that shape on one line, conditional and attribute entries included, settles after one save and keeps every entry it was read with |
| SddlLimits.ProtectedWhenFirstOrLast | backend/samfscon/srv/acl.py:258 | protection is recognised if and only if its flag is the first or the last of the DACL flags |
| SddlLimits.ProtectionLost | backend/samfscon/srv/acl.py:258 | a concrete protected text that is read as unprotected |
| SddlLimits.DenialsExact | backend/samfscon/srv/acl.py:373 | over any text of that shape, of the entries that survive those read and saved as denials are exactly the ones whose type starts with D, so of the denials of the format only the plain kind stays one |
| SddlLimits.ObjectAceWidens | backend/samfscon/srv/acl.py:364-384 | an object entry on its own, granting or denying, of any rights for anyone and limited by any GUIDs, comes back from a save as a grant of the same rights without a limit |
| SddlLimits.GuidsIgnored | backend/samfscon/srv/acl.py:364-384 | entries that differ only in their GUIDs are read alike |
| SddlLimits.SurvivorsIff | backend/samfscon/srv/acl.py:237-240 | of a whole text exactly the entries wholly before the first SACL mark among them, with six fields or more and no parentheses inside, are read, and nothing else, if and only if no condition holds text that reads like an entry |
| SddlLimits.NothingLostIff | backend/samfscon/srv/acl.py:237-240 | no entry of a text is lost if and only if every one has six fields and none a condition, and no SACL mark stands among them |
| SddlLimits.LostBehindMark | backend/samfscon/srv/acl.py:540-542 | from a flat entry with a SACL mark in it on, nothing is read, whatever follows |
| SddlLimits.DenialLostBehindMark | backend/samfscon/srv/acl.py:540-542 | behind a grant to "S:" a denial of any rights, for anyone, is gone after a save |
| SddlLimits.ConditionLost | backend/samfscon/srv/acl.py:223-224 | a list of one entry with a condition, whatever it says without a semicolon, is saved as an empty list |
| SddlLimits.ConditionRead | backend/samfscon/srv/acl.py:223-224 | six fields inside a condition are read as an entry |
| SddlLimits.SectionsKeptIff | backend/samfscon/srv/acl.py:230-231 | for any owner, group and text around them, both are read back as written or as left out if and only if neither holds a line break or a mark that ends it early, the owner does not begin like the group beside it, and no mark of one that is left out can be read |
| SddlLimits.NestedMarkDrifts | backend/samfscon/srv/acl.py:230-231 | a concrete text that a second save changes again |
| SddlLimits.OwnDaclNeeded | backend/samfscon/srv/acl.py:258 | where the owner begins like a DACL, whether saving settles depends on the letter that follows |
| Access.ExpandBit | backend/samfscon/srv/acl.py:577-588 | expansion keeps every specific right, replaces each generic one by what it stands for, and adds nothing |
| Access.GenericMeans | backend/samfscon/srv/acl.py:577-588 | each generic right alone expands to its file rights, in numbers |
| Access.MaskFor | backend/samfscon/api/v1/permissions.py:352-368 | the loop over the entries computes the sum of the allow entries without the deny entries of one account |
| Access.MaskBit | backend/samfscon/api/v1/permissions.py:352-368 | a right is in the mask if and only if some allow entry naming the account carries it and no deny entry does |
| Access.OrderIsIrrelevant | backend/samfscon/api/v1/permissions.py:352-368 | descriptors with the same entries, in any order and with any repetition, give the same mask |
| Access.FoldedIsExpanded | backend/samfscon/srv/acl.py:645-665 | expanding a folded mask once more changes nothing |
| Access.EffectiveMeans | backend/samfscon/srv/acl.py:645-665 | a right is in the effective mask if and only if both levels grant it |
| Access.LimitedMeans | backend/samfscon/srv/acl.py:645-665 | the effective mask never exceeds the file's, and "limited by the share" is reported if and only if it is smaller |
| Addresses.PrefixIsFirstParts | backend/samfscon/srv/globalconf.py:1146-1147 | a dotted prefix is a string prefix of an address if and only if its octets are the first ones of the address |
| Addresses.LeadingOctets | backend/samfscon/srv/globalconf.py:1142-1145 | two addresses agree on their first 8k bits if and only if their first k octets are equal (section 3.1 of RFC 4632) |
| Hosts.HostsVerdict | backend/samfscon/srv/globalconf.py:1151-1211 | the evaluation of a list, in the source's order |
| Hosts.ScanEntries | backend/samfscon/srv/globalconf.py:1188-1211 | the loop leaves at the first match and collects what it cannot decide |
| HostsReading.CoversMeans | backend/samfscon/srv/globalconf.py:1094-1148 | for every text and every address, an entry decides what its text says (`HostsMeaning.Says`: ALL, open words, prefixes, spelled addresses, networks by leading bits, names), and is open where the text does not say |
| HostsReading.QuadDecides | backend/samfscon/srv/globalconf.py:1142-1143 | a dotted quad takes in a dotted quad if and only if they are the same |
| HostsReading.NetworkDecides | backend/samfscon/srv/globalconf.py:1144-1145 | a network of any length from 0 to 32, given in digits or as either kind of mask, takes in a dotted quad if and only if that many leading bits agree, one by one |
| HostsReading.DecidesIff | backend/samfscon/srv/globalconf.py:1094-1148 | an entry decides about a dotted quad if and only if its text is ALL, a prefix, an address or a network; names, LOCAL, EXCEPT and netgroups are open |
| HostsLaws.VerdictExact | backend/samfscon/srv/globalconf.py:1151-1211 | with a list's meaning defined on its text alone: covered if and only if the list matches under every resolution of the open entries, excluded if and only if under none, undecidable if and only if both can happen |
| HostsLaws.NoLockOut | backend/samfscon/srv/globalconf.py:1690-1834 | a change accepted without a confirmation leaves a section, the stored one with the request applied, whose allow and deny lists admit the console, known or not, under every resolution |
| HostsLaws.AppliedIsWritten | backend/samfscon/srv/globalconf.py:1723-1730 | the section the gate judges is the one a write of the request leaves |
| HostsLaws.StoredIsIrrelevant | backend/samfscon/srv/globalconf.py:1723-1730 | what is stored under a submitted name never changes the outcome |
| HostsLaws.RefusedExactly | backend/samfscon/srv/globalconf.py:1690-1834 | a change is refused if and only if the lock-out is decided by the lists as they stand after it, and then under every set of confirmations |
| HostsLaws.ConfirmationExact | backend/samfscon/srv/globalconf.py:1690-1834 | what waits for a confirmation goes through if and only if its one token is given; the unknown address has a token of its own |
| HostsLaws.SeparatorsOnlyExact | backend/samfscon/srv/globalconf.py:1164-1167 | when the allow list after the change is made of separators, everything is accepted, and the console is safe if and only if the deny list is empty or excludes it |
| HostsLaws.CommaLocksOut | backend/samfscon/srv/globalconf.py:1164-1167 | a concrete accepted change that shuts the console out |
| HostsLaws.RefusalExact | backend/samfscon/srv/globalconf.py:1690-1834 | a refused change would really have shut a known console out if and only if the deny list after it matches for certain, or names nothing beside an allow list |
| HostsLaws.PrefixIsNetwork | backend/samfscon/srv/globalconf.py:1125-1148 | a trailing-dot prefix of one to three octets and the network of those octets zero-filled decide every dotted-quad address alike |
| ProtocolLaws.StepKeeps | backend/samfscon/core/executor.py:64-159 | every step of callers and worker keeps the order of tasks, the account of connections, the bounds on calls and the place of the cleanup |
| ProtocolLaws.OneAtATimeInOrder | backend/samfscon/core/executor.py:64-132 | in every interleaving the tasks finished, running and queued are together exactly what was asked for, in that order |
| ProtocolLaws.NeverReplayed | backend/samfscon/srv/access.py:64-110 | a write's body starts at most once and a read's at most twice, only ever on the stored connection, which is open |
| ProtocolLaws.NoConnectionLeaks | backend/samfscon/srv/access.py:33-61 | each connection opened is closed, or stored or just being closed, never both |
| ProtocolLaws.CleanupEnds | backend/samfscon/core/executor.py:134-159 | once the cleanup has finished, everything asked for has, every connection is closed and nothing is queued, running or stored |
| ProtocolLaws.NeverStuck | backend/samfscon/core/executor.py:64-132 | while there is work the worker has a step to take, whatever the server answers |
| ProtocolLaws.OnwardBounded | backend/samfscon/core/executor.py:64-132 | the worker's own steps end within a bound set by the queue |
| ProtocolLaws.TimedOutStillFinishes | backend/samfscon/core/executor.py:86-105 | in every continuation, whatever is submitted, given up on or closed meanwhile, a submitted task has finished once the worker has made ten steps for each task not ahead of it |
| ProtocolLaws.TimedOutIsSubmitted | backend/samfscon/core/executor.py:86-105 | every task a caller gave up on is among the submitted, so it still finishes |
| Worker.SessionWorker.Run | backend/samfscon/core/executor.py:64-87 | a closed session refuses; otherwise the call goes to the end of the queue |
| Worker.SessionWorker.Shut | backend/samfscon/core/executor.py:134-159 | the first close queues the cleanup, later ones do nothing |
| Worker.SessionWorker.Connection | backend/samfscon/srv/access.py:33-44 | the stored connection, or a new one that is then stored |
| Worker.SessionWorker.Reconnect | backend/samfscon/srv/access.py:47-61 | the stale connection is closed before another is opened |
| Worker.SessionWorker.RunRead | backend/samfscon/srv/access.py:64-88 | the exact sequence of protocol actions of a read, reconnecting once after a lost connection |
| Worker.SessionWorker.RunWrite | backend/samfscon/srv/access.py:91-110 | the same for a write, which is called once whatever comes of it |
| Worker.SessionWorker.CleanUp | backend/samfscon/core/executor.py:145-153 | every stored handle is closed, then all are forgotten |
| RateLimit.RateLimiter.Check | backend/samfscon/core/ratelimit.py:25-47 | the whole new table and the outcome, with the seconds to wait on a refusal |
| RateLimitLaws.AtMostMaxPerWindow | backend/samfscon/core/ratelimit.py:25-47 | in every run no closed interval as long as the window holds more than the limit of accepted checks for one key |
| RateLimitLaws.RefusedIffFull | backend/samfscon/core/ratelimit.py:25-47 | a check is refused if and only if the window ending at it is full |
| RateLimitLaws.RetryAfterWorks | backend/samfscon/core/ratelimit.py:25-47 | after waiting the reported time with nothing let through in between, the next check succeeds |
| RateLimitLaws.RetryAfterExact | backend/samfscon/core/ratelimit.py:33-41 | a check any other whole number of seconds later, with nothing let through in between, succeeds if and only if that number is not below the one reported |
| RateLimitLaws.HistoryFits | backend/samfscon/core/ratelimit.py:25-47 | the bucket is always the recent end of the accepted history, and checks a limit apart in it are more than a window apart in time |
| Throttle.LoginThrottle.Check | backend/samfscon/auth/session.py:263-287 | the new table and the answer, leaving at the first full key |
| Throttle.LoginThrottle.RecordFailure | backend/samfscon/auth/session.py:289-298 | every key of the account is counted, from one again when its entry is stale |
| ThrottleLaws.CountersBounded | backend/samfscon/auth/session.py:263-298 | in every run in which each failure directly follows a passing check, no counter exceeds the limit |
| ThrottleLaws.FailuresAreSpread | backend/samfscon/auth/session.py:263-303 | in every run in which each failure is recorded at a moment when a check would pass, any limit-plus-one consecutive failures under a key without a success contain a break longer than the lockout |
| ThrottleLaws.DisciplinedPasses | backend/samfscon/auth/session.py:263-298 | that is so when each failure directly follows a passing check for the same account and address |
| ThrottleLaws.FailureBoundedIff | backend/samfscon/auth/session.py:263-298 | recording a failure keeps every counter within the limit if and only if a check at that moment would pass |
| ThrottleLaws.BoundedIff | backend/samfscon/auth/session.py:263-303 | over whole runs in any order, no counter ever exceeds the limit if and only if every failure is recorded at a moment when a check would still pass |
| ThrottleLaws.OutstandingBounds | backend/samfscon/auth/session.py:263-303 | with at most p passed checks waiting for their outcome under a key, its counter never exceeds the limit by more than p - 1 |
| ThrottleLaws.TwoChecksAtOnce | backend/samfscon/auth/session.py:263-298 | a concrete run in which two early checks take a counter past the limit |
| ThrottleLaws.KeysShared | backend/samfscon/auth/session.py:257-261 | two sign-ins are counted together if and only if their accounts differ in case only or they come from the same known address |
| ThrottleLaws.OffIsOff | backend/samfscon/auth/session.py:247-256 | either setting at zero or below turns everything off |
| ThrottleLaws.RefusedIffStopped | backend/samfscon/auth/session.py:263-287 | a check is refused if and only if a key of the sign-in has the allowed number of failures, the last one no longer ago than the lockout |
| ThrottleLaws.WaitIsTold | backend/samfscon/auth/session.py:276-287 | the seconds reported are those of the first such key: at least one, and beyond that the last whole second at which it still refuses |
| Sessions.SessionSecret.Clear | backend/samfscon/auth/session.py:62-80 | the bytes are overwritten in place and the buffer let go |
| Sessions.SessionStore.Get | backend/samfscon/auth/session.py:173-187 | the refusal or the session, marked as used; an expired one is dropped and its secret overwritten |
| Sessions.SessionStore.Drop | backend/samfscon/auth/session.py:189-208 | record, ticket and secret go together, the secret overwritten, and nothing else changes; secrets can be revealed and tickets exist exactly while their session is stored |
| Sessions.SessionStore.Sweep | backend/samfscon/auth/session.py:210-217 | exactly the expired sessions go, their secrets overwritten, and are counted |
| Sessions.SessionStore.CloseAll | backend/samfscon/auth/session.py:219-221 | no session and no ticket is left, and every secret ever given is overwritten |
| SessionLaws.RecordIsHistory | backend/samfscon/auth/session.py:112-127 | in every run a stored record's last use is the last lookup that found it, and its hard limit the one set at creation |
| SessionLaws.FoundIffAlive | backend/samfscon/auth/session.py:112-127 | a lookup succeeds if and only if the session is stored and the time is before its hard limit and its last use plus the idle time |
| SessionLaws.GoneStaysGone | backend/samfscon/auth/session.py:173-221 | a session that has left the store is never found again |
| Cache.TTLCache.Get | backend/samfscon/core/cache.py:26-36 | a value answered is what a map that never evicts would answer now; a live one is missed only if it was evicted |
| Cache.TTLCache.Set | backend/samfscon/core/cache.py:38-44 | the size stays within the limit, and a full cache gives up an entry with the earliest expiry and no other |
| Cache.TTLCache.InvalidatePrefix | backend/samfscon/core/cache.py:54-65 | exactly the keys with the prefix go |
| ShareConf.Validate | backend/samfscon/srv/shareconf.py:517-553 | the loop over the form stops at the first refusal and otherwise gives the checked form |
| ShareConfLaws.ValuesSettle | backend/samfscon/srv/shareconf.py:560-633 | for every option type and every text: it is accepted if and only if it means something (one of the four words for yes or for no in any case, octal digits of the right length, a number that is not negative, a choice in any case), and then the answer is the one spelling of that meaning, means the same and is its own answer |
| ShareConfLaws.AcceptedIff | backend/samfscon/srv/shareconf.py:560-633 | the same for acceptance alone, whatever the choices are |
| ShareConfLaws.FormRefusedIff | backend/samfscon/srv/shareconf.py:517-553 | a form is refused if and only if it holds path, comment or a value without a meaning, and the refusal names the first such option |
| ShareConfLaws.LastSubmission | backend/samfscon/srv/shareconf.py:531-553 | each name of a checked form carries the value last submitted under any of its spellings, in normal form |
| ShareConfLaws.ValidatedShape | backend/samfscon/srv/shareconf.py:517-553 | a checked form has distinct, non-empty names and never the share's own path or comment |
| ShareConfLaws.FormsSettleIff | backend/samfscon/srv/shareconf.py:517-553 | checking a checked form again gives the same form if and only if no submitted name has an underscore at either end |
| ShareConfLaws.NormaliseSettlesIff | backend/samfscon/srv/registry.py:255-262 | normalising a name twice is normalising it once if and only if the trimmed name has no underscore at either end |
| Registry.Store.WriteOptions | backend/samfscon/srv/registry.py:196-231 | store and record after a write, also when the key cannot be opened, the server stops it part of the way, or some of the stored values were missed in reading |
| Registry.Store.DeleteSection | backend/samfscon/srv/registry.py:234-252 | the named section goes and the others stay, or nothing changes when the server refuses |
| RegistryLaws.DiffApplyCorrect | backend/samfscon/srv/registry.py:196-231 | with names distinct, the section becomes the old one overlaid by the request and the record holds exactly the options that changed, with both values |
| RegistryLaws.WriteExact | backend/samfscon/srv/registry.py:196-231 | for any request at all: the value each option ends with and whether and how it is recorded |
| RegistryLaws.OverlayIff | backend/samfscon/srv/registry.py:196-231 | an option ends as last asked for if and only if it is not set back to its stored value after another was asked for |
| RegistryLaws.SecondNameLost | backend/samfscon/srv/registry.py:196-231 | a concrete request whose second spelling is lost |
| RegistryLaws.ResendRecordsNothing | backend/samfscon/srv/registry.py:201-205 | sending a request again changes and records nothing |
| RegistryLaws.PartlySeenIff | backend/samfscon/srv/registry.py:396-409 | when values were missed in reading, an option ends as asked if and only if it is not one of those that were to be deleted, and such an option stays as it was |
| RegistryLaws.WriteStays | backend/samfscon/srv/registry.py:196-231 | a write touches no section but its own, and none at all when the key cannot be opened |
| RegistryLaws.UndoRestoresIff | backend/samfscon/srv/registry.py:196-231 | writing the recorded old values back restores the section if and only if every recorded name is settled |
| Shares.CreateShare | backend/samfscon/srv/shares.py:171-248 | store and answer on every path: refused names, bad options, taken names, a write stopped anywhere, a clean-up that works or does not, and a second question the server does not answer |
| Shares.UpdateShare | backend/samfscon/srv/shares.py:251-292 | store and answer on every path of an update |
| Shares.DeleteShare | backend/samfscon/srv/shares.py:295-318 | store and answer of a deletion, refused by the registry or not |
| ShareGates.CreationGuarded | backend/samfscon/srv/shares.py:198-206 | a creation that answers Ok or changes any section implies that the name is not IPC$, ADMIN$ or print$ in any case, every option passes and the server serves no such share |
| ShareGates.ServedUntouched | backend/samfscon/srv/shares.py:201-206 | a share the server serves is never touched by a creation, which answers that it exists |
| ShareGates.CreationRefusals | backend/samfscon/srv/shares.py:198-206 | each refusal of a creation is given if and only if its reason holds and none before it does |
| ShareGates.CreationSucceeds | backend/samfscon/srv/shares.py:198-248 | a creation that may write succeeds on a server that refuses nothing |
| ShareGates.DeletionExact | backend/samfscon/srv/shares.py:308-318 | a deletion takes the named section away and answers Ok if and only if the server serves the share, it is not the server's own and the registry accepts; otherwise nothing changes, for a reason told exactly |
| ShareGates.UpdateGuarded | backend/samfscon/srv/shares.py:267-283 | an update that answers Ok or changes any section implies the same of its name and options, that the server serves the share, and that the section the server names is in the registry |
| ShareGates.UpdateRefusals | backend/samfscon/srv/shares.py:267-283 | each refusal of an update is given if and only if its reason holds and none before it does |
| ShareGates.UpdateOverlays | backend/samfscon/srv/shares.py:285-292 | a successful update stores each checked option, and the path and the comment where they were sent and are not already what the console shows, and leaves everything else |
| ShareLaws.OthersUntouched | backend/samfscon/srv/shares.py:171-318 | no run of creations, updates and deletions of other shares touches a section |
| ShareLaws.CreateOverlays | backend/samfscon/srv/shares.py:208-224 | a successful creation leaves whatever section stood there overlaid by the path, comment and checked options |
| ShareLaws.CreateStoresExactly | backend/samfscon/srv/shares.py:171-248 | it stores exactly what it was given if and only if nothing else was stored under the name |
| ShareLaws.NothingInherited | backend/samfscon/srv/registry.py:234-241 | so does one after a deletion, whatever was done to other shares in between |
| ShareLaws.FailedCreateRestoresIff | backend/samfscon/srv/shares.py:212-248 | a failed creation with a clean-up that works leaves the registry as it was if and only if the write was never begun, or failed with no section there before, or succeeded without changing anything |
| ShareLaws.UnconfirmedStays | backend/samfscon/srv/shares.py:235 | a new share stays behind whenever the server answers before the write and not after it |
| ShareLaws.LeftoverDeleted | backend/samfscon/srv/shares.py:212-222 | a section not yet served is deleted whenever a second creation under its name cannot be written |
| ShareLaws.PathKeptIff | backend/samfscon/srv/shares.py:208-224 | a new share stores the path it was given if and only if no option, its name read a second time, names another one |
| ShareLaws.UnderscorePath | backend/samfscon/srv/shares.py:208-224 | a concrete creation that stores another path |
| ShareLaws.UpdateTwice | backend/samfscon/srv/shares.py:251-292 | repeating an update on a share that holds a path changes nothing and reports nothing if and only if the comment asked for is stored or is what the server reports |
| ShareLaws.SavedFormResent | backend/samfscon/srv/registry.py:201-205 | a saved form passes the check unchanged if and only if no submitted name has an underscore at either end, and sent again then writes and records nothing |
| Paging.Enumerate | backend/samfscon/srv/shares.py:326-383 | against a server whose totals never exceed T the loop makes at most max(T, 1) calls and returns all it was handed; it goes on exactly while a reply brings something, a handle that is neither zero nor the one sent, and a total above what has been gathered |
| Paging.Complete | backend/samfscon/srv/sessions.py:306-350 | where the loop first stops against a server that pages a list in order, it has the whole list if and only if every total reported before the last page was above what had been handed out |
| Paging.EnumerateAll | backend/samfscon/srv/shares.py:326-383 | against such a server the loop returns a beginning of the list, and all of it, once and in order, exactly when the totals were ahead |
| Paging.OverallIsAhead | backend/samfscon/srv/shares.py:326-383 | a server that reports the overall length is always ahead |
| Paging.EnumerateLevels | backend/samfscon/srv/sessions.py:271-303 | the first level not declined decides the answer; declined if and only if every level is |
| Krb5.Krb5Configuration.EnsureRealm | backend/samfscon/auth/krb5conf.py:68-96 | realms, default and file after the call, also when the write fails |
| Krb5.Krb5Configuration.SetDefaultRealm | backend/samfscon/auth/krb5conf.py:98-108 | the same for naming the default realm |
| Krb5Lines.RenderIsLines | backend/samfscon/auth/krb5conf.py:35-44 | the realm, one line for each KDC in order, and the first KDC again as the admin server; and the whole file, line by line |
| Krb5Lines.RealmName | backend/samfscon/auth/krb5conf.py:74 | a realm goes by its name in capitals without the spaces around it |
| Krb5Laws.DefaultIs | backend/samfscon/auth/krb5conf.py:68-108 | in every run the default realm is the one last made the default, or else the first ever registered, whatever the writes do |
| Krb5Laws.KdcsAreJoined | backend/samfscon/auth/krb5conf.py:68-96 | in every run a realm's list has no repetition and holds exactly the non-empty KDCs ever given for it |
| Krb5Laws.ListsOnlyGrow | backend/samfscon/auth/krb5conf.py:68-96 | a later list starts with every earlier one, so the password server never changes once set |
| Krb5Laws.FileIsLastWritten | backend/samfscon/auth/krb5conf.py:127-176 | in every run, whichever writes fail, the file is the rendering of the state after the last recorded call whose write succeeded |
| Krb5Rendering.RenderTells | backend/samfscon/auth/krb5conf.py:127-162 | of two states of which the later has only grown, and whose realm names hold no line break, the files are the same if and only if the states are |
| Krb5Laws.FileCurrentIff | backend/samfscon/auth/krb5conf.py:68-108 | in every run that names no realm with a line break, whatever KDCs are given and whichever writes fail, the file is current if and only if the state is again what was last written, or nothing was ever recorded |
| Krb5Laws.FileIsCurrent | backend/samfscon/auth/krb5conf.py:68-108 | the file is current when all writes succeed, and again after any recorded call whose write does |
| Krb5Laws.FailedWriteNotRetried | backend/samfscon/auth/krb5conf.py:68-96 | after a failed write the same call records nothing and leaves the old file, although the state has changed exactly when there was something to record |
| Krb5Laws.StaleFile | backend/samfscon/auth/krb5conf.py:68-96 | a first registration that cannot be written never reaches the file, however often it is repeated |

## Left out

- ParseSpell: owners and groups whose marks collide are excluded; `SectionsKeptIff` says exactly what becomes of them.
- RoundTrip: fields holding a delimiter or surrounding space are excluded, as nothing in the printer quotes them; the content of the SACL is not kept by the code and not by the model.
- NoLockOut: asks that the allow list after the change is not made only of separators; `SeparatorsOnlyExact` is exact about those.
- PrefixIsNetwork: for dotted quads; texts with a colon are read by a library parameter, of which nothing is assumed, and which is asked about no other text.
- WriteOptions: how far the server lets a write get, and which values are missed in reading, are parameters; which error it gives is not modelled.
- CreateShare: reads of a section's values are taken to be complete here and in `UpdateShare`; `PartlySeenIff` says what an incomplete one does to a write.
- ValuesSettle: asks that the catalogue spells its choices without spaces around them; `AcceptedIff` does not.
- FileCurrentIff: for realm names without a line break, and for an order that lists exactly the names it is given.
- CreateOverlays: for option names without an underscore at either end, as are `CreateStoresExactly`, `CreationSucceeds`, `UpdateOverlays` and `UpdateTwice`; `PathKeptIff` says what the others do to the path.
- Host names, netgroups, LOCAL and EXCEPT in a hosts list have no fixed meaning here: each theorem holds for every meaning.
- Text is ASCII as far as case and digits go: Python's Unicode case mapping and digits are not modelled (its whitespace is).
- Access masks are unbounded as in Python; a 32-bit limit is not imposed.
- The order of `sorted` names in the Kerberos file, the ticket lifetimes and the cache directory are parameters; file permissions and atomic replacement are left out.
- Locks, threads and the event loop outside the session worker: the other objects are called one method at a time.
- In the session worker `close` is one step, and a body or a connection attempt always comes back, with any answer.
- Session records are values in the store's map: a caller holding a returned session while another request touches it is not captured. The principal, target, CSRF token and address of a session are left out. That ids, secrets and ticket files are each used for one session is assumed.
- The order of credentials and connection teardown when a session is dropped, which the code does not guarantee across threads.
- `ExecutorRegistry` with its limit on sessions, and `get_or_set` of the cache: plain bookkeeping over what is modelled.
- The registry's transport (keys, values, buffers, call shapes), its case-insensitive names; the catalogue of options is a parameter.
- The NetShare calls beside the registry writes: the server's answer to them is a parameter, its own share list is not modelled. A paging call that fails ends the loop with its error and is left out.
- SAMR enumeration, whose total need not be the overall one.
- Routers, command line, logging, audit files, diagnostics, discovery, identity lookup, SMB file access and the user interface.
