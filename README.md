# Connectivity checks and stack composition of the plenum test stack

This project models the deterministic parts of `plenum/test/test_stack.py`,
the test instrumentation of the plenum node's network stack, and proves what
they do:

- **Connectivity check** (`StackedTester.checkIfConnectedTo`), in
  `connectivity.dfy`. For each address of the node registry the check scans
  the stack's remotes. The entry counts once when a remote with that address
  is connected, and the scan stops at that remote. The count is then
  classified against the registry size, or against an explicit expected
  count. The outcome is success, `NotConnectedToAny`, `NotFullyConnected` or
  a failed assertion. The method has the two nested loops with the early
  exit. It is proved equal to a specification function, and the lemmas
  characterise that function.
- **Ancestor-list rewriting** (`getTestableStack`), in `composition.dfy`.
  The method builds the list `mro[1:]` with the `TestStack` marker inserted
  immediately before every occurrence of the base stack class. Classes are an
  abstract element type.
- **Remote-state comparison** (`checkState`) and the `RemoteState`
  constants, in `remote_state.dfy`. A remote state has three fields under
  RAET (`joined`, `allowed`, `alived`) and one under ZStack (`isConnected`).
  Each field holds an optional bool or the "don't care" sentinel `'N/A'`.
  The transport is a tagged datatype, chosen once, as `config.UseZStack`
  chooses it. The check rebuilds the observed state field by field in a loop
  and compares it with the expected state. On a mismatch it reports the
  observed items that are not among the expected items.

`wrappers.dfy` holds the `Option` type shared by the modules.

Inputs that come from outside the file are parameters:
- the node registry is the sequence of its `(host, port)` values, in
  iteration order;
- the stack's remotes are a sequence of (address, connected) pairs, where the
  flag is what `isRemoteConnected` reports;
- an observed remote is a map from attribute name to its `Optional[bool]`
  value.

Behaviour of the code worth noting:
- Without an explicit count, nothing connected raises `NotConnectedToAny`,
  even when the registry is empty (line 57; `FullRegistryCheck`).
- Duplicate registry entries each count separately (`DuplicateEntriesCountTwice`).
- A remote counts as connected through `isRemoteConnected`. The code does not
  compare the remote's state with `CONNECTED`.
- The failure diagnostic of `checkState` is the observed items minus the
  expected items. It is not the symmetric difference.
- `getTestableStack` does not reject a base class that occurs zero times or
  several times. It inserts the marker before each occurrence, and leaves the
  list unchanged when there is none.

## Model

| member | source | states |
|---|---|---|
| `Connectivity.ConnectedCount` | plenum/test/test_stack.py:48-55 | the connected total never exceeds the number of registry entries, because each entry adds at most one |
| `Connectivity.Classify` | plenum/test/test_stack.py:56-62 | without a count: `NotConnectedToAny` iff nothing is connected, success iff some are and all registry entries are, never an assertion failure when the total is within the registry size; with a count: `NotFullyConnected` iff fewer, assertion failure iff more, success iff equal, never `NotConnectedToAny` |
| `Connectivity.CheckIfConnectedTo` | plenum/test/test_stack.py:47-62 | the nested scans with early exit compute the connected total of the registry over the remotes; the outcome is its classification against the registry size or the explicit count |
| `Connectivity.ConnectedCountIsReachedEntries` | plenum/test/test_stack.py:50-55 | the connected total is the number of registry positions whose address some connected remote has, so duplicate entries count separately |
| `Connectivity.ConnectedCountZeroIff` | plenum/test/test_stack.py:50-55 | the total is 0 iff no registry address has a connected remote |
| `Connectivity.ConnectedCountFullIff` | plenum/test/test_stack.py:50-55 | the total equals the registry size iff every registry address has a connected remote |
| `Connectivity.ReachedPastDisconnected` | plenum/test/test_stack.py:51-55 | a matching but disconnected remote does not decide the entry: whether the entry is reached is unchanged when that remote is dropped, so a later connected match still counts |
| `Connectivity.FullRegistryCheck` | plenum/test/test_stack.py:56-62 | without a count: `NotConnectedToAny` iff nothing is reached, even on an empty registry; success iff the registry is non-empty and fully reached; `NotFullyConnected` iff some but not all entries are counted; never an assertion failure |
| `Connectivity.ExplicitCountCheck` | plenum/test/test_stack.py:56-62 | with a count: fewer connections give `NotFullyConnected`, more give an assertion failure, exactly as many succeed, never `NotConnectedToAny` |
| `Connectivity.DisconnectedCheck` | plenum/test/test_stack.py:56-62 | with count 0, as the disconnection check at line 73 passes it: success iff no registry address has a connected remote, an assertion failure otherwise |
| `Connectivity.DuplicateEntriesCountTwice` | plenum/test/test_stack.py:50-55 | a registry listing one reached address twice counts 2 |
| `Composition.TestableBases` | plenum/test/test_stack.py:85-90 | the loop builds `mro[1:]` with the marker placed immediately before each occurrence of the base class |
| `Composition.WithMarkersLength` | plenum/test/test_stack.py:87-90 | the new list is as long as `mro[1:]` plus the number of occurrences of the base class |
| `Composition.WithMarkersAbsent` | plenum/test/test_stack.py:87-90 | with the base class absent, the list is `mro[1:]` unchanged |
| `Composition.MarkerBeforeEveryBase` | plenum/test/test_stack.py:87-90 | every occurrence of the base class in the result has the marker immediately before it |
| `Composition.EveryMarkerBeforeBase` | plenum/test/test_stack.py:87-90 | when the marker was not already an ancestor, every marker in the result is immediately followed by the base class |
| `Composition.WithoutMarkersRestores` | plenum/test/test_stack.py:87-90 | deleting the markers from the result gives back `mro[1:]` exactly, in order, when the marker was not already an ancestor |
| `RemoteStates.VariantOf` | plenum/test/test_stack.py:94-104 | the ZStack shape is chosen iff `config.UseZStack` is set, the RAET shape otherwise |
| `RemoteStates.Connected` | plenum/test/test_stack.py:99-110 | `CONNECTED` has the configured shape and every field `True` in both shapes (lines 99, 110) |
| `RemoteStates.NotConnected` | plenum/test/test_stack.py:100-111 | `NOT_CONNECTED` has the configured shape; every field is `None` under RAET (line 111), `isConnected` is `False` under ZStack (line 100) |
| `RemoteStates.JoinedNotAllowed` | plenum/test/test_stack.py:102-112 | `JOINED_NOT_ALLOWED` has the configured shape; `joined` is `True` and the rest `None` under RAET (line 112), `isConnected` is `False` under ZStack (line 102) |
| `RemoteStates.Joined` | plenum/test/test_stack.py:103-113 | `JOINED` has the configured shape; `joined` is `True` and the rest `'N/A'` under RAET (line 113), `isConnected` is `False` under ZStack (line 103) |
| `RemoteStates.FromFields` | plenum/test/test_stack.py:121 | `RemoteState(**checkedItems)` has the shape asked for and takes each field's value from the dictionary entry of that name |
| `RemoteStates.FirstMissing` | plenum/test/test_stack.py:119-120 | names no field iff every attribute that must be read exists; otherwise names the first field in order whose attribute is missing |
| `RemoteStates.Rebuilt` | plenum/test/test_stack.py:119-121 | the rebuilt state has the expected shape; each field keeps `'N/A'` where expected, and otherwise holds the observed attribute |
| `RemoteStates.CheckState` | plenum/test/test_stack.py:116-123 | the loop that fills the checked items yields the verdict of rebuilding and comparing: pass, mismatch with the diagnostic set, or the attribute read that raises |
| `RemoteStates.NoStateAlwaysPasses` | plenum/test/test_stack.py:117 | without an expected state the check never fails |
| `RemoteStates.CheckStatePassesIff` | plenum/test/test_stack.py:116-123 | the check passes iff every field that is not `'N/A'` equals the observed attribute of the same name |
| `RemoteStates.CheckStateDiagnostic` | plenum/test/test_stack.py:121-123 | when every needed attribute exists, a failure reports exactly the observed (field, value) pairs that differ from the expected ones, and that set is empty iff the check passes |
| `RemoteStates.NotApplicableIgnored` | plenum/test/test_stack.py:120 | a field expected as `'N/A'` never affects the verdict, whatever the observed attribute of that name is, or if it is absent |
| `RemoteStates.ConnectedPassesIff` | plenum/test/test_stack.py:99-110 | in either configuration, checking against `CONNECTED` passes iff every field's attribute of the configured shape is present and `True` |
| `RemoteStates.RaetJoinedPassesIff` | plenum/test/test_stack.py:113 | under RAET, `JOINED` constrains only `joined`: the check passes iff `joined` is true |
| `RemoteStates.RaetNotConnectedPassesIff` | plenum/test/test_stack.py:111 | under RAET, `NOT_CONNECTED` passes iff all three attributes are present and `None` |
| `RemoteStates.ZStackDisconnectedStates` | plenum/test/test_stack.py:99-103 | under ZStack, `NOT_CONNECTED`, `JOINED_NOT_ALLOWED` and `JOINED` are one state, different from `CONNECTED`; checking against it passes iff `isConnected` is false |
| `RemoteStates.NotAllowedReported` | plenum/test/test_stack.py:116-123 | under RAET, any remote whose `joined` and `alived` are `True` and whose `allowed` is `False` fails `CONNECTED`, whatever other attributes it has, and the report is exactly `{("allowed", False)}` |

## Left out

- `ensureConnectedToNodes` and `ensureDisconnectedToNodes` (lines 64-74) are
  not modelled. They poll `checkIfConnectedTo` through `eventually` and
  `eventuallyAll`, with timeouts, and those helpers are not part of this
  model. Only the single check each poll makes is modelled: count `None` in
  `FullRegistryCheck` and count 0 in `DisconnectedCheck`.
- The `TestStack` class (lines 26-43) is not modelled: its constructor,
  `_serviceStack`, the `delay` attribute and `resetDelays`. They delegate to
  `Stasher`, which is not part of this model; `_serviceStack` is also
  asynchronous.
- Class creation with `type(...)` (line 91) is not modelled, and neither are
  the real C3 linearisation of the new class and the copy of
  `stack.__dict__`. They are runtime metaprogramming. Only the list built at
  lines 86-90 is modelled.
- `checkRemoteExists` (lines 126-130) is not modelled, because `getRemote`
  is part of the external stack. The comparison it delegates to is
  `CheckState`.
- `isRemoteConnected`, `remote.ha`, `nodeReg` and `nodestack.remotes` are
  external interfaces. They are abstracted as a connected flag per remote, an
  address pair, and input sequences in dictionary iteration order.
- Logging and configuration loading (lines 16-17, 66-68) are left out.
  `config.UseZStack` is a boolean parameter of the four constants, mapped to
  a shape by `VariantOf`.
- Observed attributes are `Optional[bool]` values. Python's cross-type
  equalities, such as `True == 1` or an attribute that is itself the string
  `'N/A'`, are not modelled.
