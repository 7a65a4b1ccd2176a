# openpilot rerun helper — a verified model of its plotting core

`tools/rerun/run.py` turns an openpilot route log into a live rerun
visualization. For every log message it moves the rerun timeline to the
message's `logMonoTime`. A `thumbnail` message is then logged as one
encoded image at `/thumbnail`. Any other message's payload is flattened by
`log_msg`: a work-stack walk that logs every numeric leaf it reaches as a
`Scalar`, named by the `/`-joined keys and list indices below the message's
union member name (`carState/vEgo`, `modelV2/position/x/3`, ...). Before
that, `createBlueprint` builds the dashboard layout. It holds one hidden
time-series panel per service, in name order, rooted at `/<service>/`. The
layout also has collapsed selection and time panels and a thumbnail panel.
Building it logs a `SeriesLine` for every service.

The model keeps the code's own structure:

- `payload.dfy` (`Payload`): the decoded message tree as a `Value`
  datatype. A dict is a sequence of `Field`s in insertion order. The module
  also models `isinstance(x, (int, float))` (`IsNumber`, which a `bool`
  passes), `str(index)` (`IndexString`) and `dict.get` (`DictGet`).
- `recording.dfy` (`Recording`): the rerun calls, as `Event` records. A
  run is described by the sequence of events it produces.
- `walker.dfy` (`Walker`): `log_msg` as the method `LogMsg`. It has the
  source's `while stack` loop, which pops the last frame and scans a list,
  a dict or nothing. `LogMsg` is proved equal to the recursive
  specification `Walk`. In `Walk`, a node emits its own scalars, then the
  walks of the frames it pushed, last pushed first.
- `walk_properties.dfy` (`WalkProperties`): what the walk emits.
  - Only numbers are emitted, and each path starts with the prefix and a `/`.
  - A scalar is emitted exactly when the walking rules (`Emits`) reach it.
  - In a well-formed payload no path is emitted twice, so each reached
    leaf is emitted exactly once.
- `walk_examples.dfy` (`WalkExamples`): walks computed outright. They show
  how a leaf is named, the last-in-first-out order of sibling dicts, and a
  leaf the walk does not reach.
- `process.dfy` (`Process`): `log_thumbnail` and `process`.
  - `Process` is a loop proved against the specification `Processed`.
  - It is proved that the run fails exactly on a thumbnail payload without
    a `get`.
  - It is proved that the timeline is set once per message, in log order.
  - It is proved that every plotted event is logged while the timeline
    reads its own message's time.
- `layout.dfy` (`Layout`): `sorted(SERVICE_LIST.keys())` over Python's
  code-point string order, and `createBlueprint` as a loop proved against
  `LayoutOf`.

The walk does not reach every numeric leaf. In a popped list, only
numbers and dicts are looked at, so a list nested in a list is skipped. A
list that is a dict field is scanned one level only, so numbers inside the
dicts of such a list are never plotted. The model follows the code here.
`Emits` states the reach exactly, and `WalkExamples.DictInListFieldSkipped`
exhibits the skipped case.

## Model

| member | source | states |
|---|---|---|
| Walker.LogMsg | tools/rerun/run.py:23-46 | the stack loop emits exactly `Walk(msg, parentKey)`: the node's own scalars, then the walks of what it pushed, most recently pushed first |
| Walker.Visit | tools/rerun/run.py:26-46 | popping a frame appends that node's scalars to the output and its dict children to the stack; anything that is neither a list nor a dict adds nothing |
| Walker.ScanList | tools/rerun/run.py:27-33 | scanning a popped list emits item i at `key/i` when it is a number, pushes it at `key/i` when it is a dict, in index order |
| Walker.ScanDict | tools/rerun/run.py:34-44 | scanning a popped dict handles its fields in insertion order: the output gains the points of each field, the stack its dict-valued fields |
| Walker.ScanField | tools/rerun/run.py:36-44 | one field of a popped dict: a number is emitted at `key/name`, a dict pushed at `key/name`, a list scanned one level, anything else dropped |
| Walker.ScanFieldList | tools/rerun/run.py:41-44 | a list-valued field emits its numeric items at `key/name/i` and nothing for its other items |
| Walker.WalkStackAppend | tools/rerun/run.py:24-26 | frames pushed on top of a stack are worked off entirely before the frames below them (LIFO) |
| Walker.PushedSmaller | tools/rerun/run.py:25-44 | what a node pushes is strictly smaller than the node, so the loop terminates on any finite payload |
| Payload.IndexStringRoundTrip | tools/rerun/run.py:29 | the index segment `str(index)` is decimal: reading it back gives the index |
| Payload.IndexStringInjective | tools/rerun/run.py:29 | distinct indices give distinct path segments |
| Payload.DictGet | tools/rerun/run.py:60 | `dict.get` is None exactly when the key is absent, and otherwise returns a value stored under that key |
| WalkProperties.WalkBelow | tools/rerun/run.py:23-46 | every emission is a `Scalar` of a number (int, float or bool) whose path lies strictly below the prefix; a root that is neither a dict nor a list emits nothing |
| WalkProperties.WalkStackBelow | tools/rerun/run.py:25-26 | a stack whose frames all sit below a prefix emits only numbers below that prefix |
| WalkProperties.WalkEmitsExactly | tools/rerun/run.py:27-44 | the walk emits `(path, x)` if and only if the walking rules reach a numeric leaf x at path |
| WalkProperties.ItemScalarsMember | tools/rerun/run.py:28-31 | a list scan emits `(path, x)` iff some item i is the number x and path is `key/i` |
| WalkProperties.DictScalarsMember | tools/rerun/run.py:35-44 | a dict scan emits `(path, x)` iff some field yields it as a number or as a number in a list-valued field |
| WalkProperties.ItemFramesMember | tools/rerun/run.py:32-33 | a frame is pushed by a list scan iff it is some dict item i at `key/i` |
| WalkProperties.DictFramesMember | tools/rerun/run.py:39-40 | a frame is pushed by a dict scan iff it is some dict-valued field at `key/name` |
| WalkProperties.WalkStackMember | tools/rerun/run.py:25-26 | an event comes out of a stack iff it comes out of the walk of one of its frames |
| WalkProperties.WalkDistinct | tools/rerun/run.py:23-46 | on a payload with unique, '/'-free keys no path is emitted twice |
| WalkProperties.EachLeafOnce | tools/rerun/run.py:23-46 | on such a payload each reached numeric leaf is emitted exactly once and nothing else is emitted |
| WalkProperties.SiblingsApart | tools/rerun/run.py:36 | two different '/'-free keys under the same parent give paths neither of which lies under the other |
| WalkProperties.IndexChildrenDistinct | tools/rerun/run.py:29 | different list indices under the same key give different paths |
| WalkExamples.SingleNumberField | tools/rerun/run.py:35-38 | a dict holding one number plots it at `key/name` and nothing else |
| WalkExamples.SiblingsLifo | tools/rerun/run.py:24-40 | for `{a: {x: 1}, n: True, b: {y: 2}}` under `t` the walk is `t/n`, then `t/b/y`, then `t/a/x` |
| WalkExamples.DictInListFieldSkipped | tools/rerun/run.py:41-44 | a dict inside a list-valued field is never walked, so its numbers are not plotted |
| Process.LogThumbnail | tools/rerun/run.py:59-61 | a dict payload gives one image at `/thumbnail` whose contents are the `thumbnail` entry when present and None otherwise; any other payload raises `AttributeError` |
| Process.MessageEventsShape | tools/rerun/run.py:70-73 | a thumbnail message gives exactly one image at `/thumbnail`; any other message gives only numbers below its member name; neither moves the timeline; only a non-dict thumbnail payload fails |
| Process.Handle | tools/rerun/run.py:69-73 | one turn of the loop records the timeline change and then exactly the events `Next` prescribes for the message, or reports the exception it raises |
| Process.Process | tools/rerun/run.py:64-74 | the session starts with `rerun_test` and the layout; the events are those of `Processed`; the messages are returned unchanged unless a handler raised, and then the error is returned |
| Process.FailurePersists | tools/rerun/run.py:67-73 | once a message raised, later messages add nothing |
| Process.FailsOnlyOnBadThumbnail | tools/rerun/run.py:59-73 | a run fails if and only if some message is a thumbnail whose payload is not a dict, and the failure is the missing `get` |
| Process.TimelineFollowsLog | tools/rerun/run.py:67-69 | the timeline is set once per handled message, in log order, to its `logMonoTime`; on a clean run for every message; otherwise up to the one that raised |
| Process.EveryPointTimed | tools/rerun/run.py:67-73 | every plotted event belongs to one message of the log, and the timeline reads that message's `logMonoTime` when it is logged |
| Layout.StrLeTotal | tools/rerun/run.py:51 | any two service names are ordered one way or the other |
| Layout.StrLeTransitive | tools/rerun/run.py:51 | the string order is transitive |
| Layout.StrLeAntisymmetric | tools/rerun/run.py:51 | names ordered both ways are equal |
| Layout.InsertPermutes | tools/rerun/run.py:51 | inserting a name adds exactly that name |
| Layout.InsertSorted | tools/rerun/run.py:51 | inserting a name into an ordered list keeps it ordered |
| Layout.SortedTopics | tools/rerun/run.py:51 | the topics come out in ascending order and are a permutation of the service names |
| Layout.CreateBlueprint | tools/rerun/run.py:49-56 | one `SeriesLine` is logged per sorted topic, in order; the layout is `LayoutOf` the sorted topics; with no services the function raises `UnboundLocalError` |
| Layout.LayoutCoversServices | tools/rerun/run.py:51-55 | there are as many panels as service names; a service has a panel iff it is in the service list; panels run in ascending name order, each rooted at `/<name>/` and hidden |

## Left out

- `install`, the command line and the `__main__` block (lines 17-20 and 77-104): process launching and argument parsing only.
- `LogReader` and `run_across_segments`: reading logs from disk or the network and the per-CPU process pool. `process` takes the messages of one segment as a sequence.
- The message objects are not modelled. A `Message` already carries `which()` and `to_dict()[which()]`, so a `KeyError` from that lookup is not modelled.
- The rerun SDK is not modelled. Each call becomes an `Event` record and nothing is said about what rerun does with it. This covers the `spawn` flag, `timeless=True` on the series lines, and an image whose contents are None (recorded as `Image(path, Null)`).
- The layout nesting (`Grid`, `Vertical`) is flattened into the `Blueprint` record. It keeps the series panels, the two collapsed panels and the thumbnail panel.
- Floats are kept as opaque 64-bit patterns because they are only forwarded, never computed on. `logMonoTime` is an unbounded `nat` rather than a 64-bit unsigned integer.
- The thumbnail panel's visibility is not given by the code (`Spatial2DView` at tools/rerun/run.py:55 gets no `visible`), so it is recorded as None, meaning the SDK's default; the series panels record `visible=False` as `Some(false)`.
- `SERVICE_LIST` is not part of this model. `CreateBlueprint` takes its keys as a parameter.
- WalkProperties.WalkDistinct and WalkProperties.EachLeafOnce require `WellFormed`: dict keys are unique and contain no `/`, as with decoded schema field names. A key containing `/` could make two leaves share a path.
