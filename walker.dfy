/**
 * `log_msg`: a walk of a payload tree with an explicit work stack that emits
 * one scalar per numeric leaf it reaches, named by the '/'-joined chain of
 * keys and indices below a prefix.
 *
 * `Walk` is the recursive specification of what the stack loop emits, in
 * the order it emits it; `LogMsg` is the loop itself, proved equal to it.
 */
module Walker {
  import opened Payload
  import opened Recording

  /** One entry of the work stack: a node and the path it sits at. */
  datatype Frame = Frame(node: Value, key: string)

  /** `f"{key}/{segment}"`. */
  function Child(key: string, segment: string): string {
    key + "/" + segment
  }

  /** Total size of the nodes on a stack; every pop makes it smaller. */
  function StackSize(stack: seq<Frame>): nat
  {
    if stack == [] then 0
    else StackSize(stack[..|stack| - 1]) + Size(stack[|stack| - 1].node)
  }

  lemma {:induction false} StackSizeAppend(a: seq<Frame>, b: seq<Frame>)
    ensures StackSize(a + b) == StackSize(a) + StackSize(b)
  {
    if b != [] {
      var n := |b| - 1;
      assert (a + b)[..|a + b| - 1] == a + b[..n];
      assert (a + b)[|a + b| - 1] == b[n];
      StackSizeAppend(a, b[..n]);
    } else {
      assert a + b == a;
    }
  }

  // ---------------------------------------------------------------------
  // What popping one node does

  /** Scanning the items of a list under `key`: item i, when numeric, is
      emitted at key/i. This is both the scan of a list popped from the
      stack and the one-level scan of a list-valued dict field. */
  function ItemScalars(elems: seq<Value>, key: string): seq<Event>
  {
    if elems == [] then []
    else
      var n := |elems| - 1;
      ItemScalars(elems[..n], key) +
      if IsNumber(elems[n]) then [Scalar(Child(key, IndexString(n)), elems[n])] else []
  }

  /** The dict items of a popped list, pushed at key/i in index order. */
  function ItemFrames(elems: seq<Value>, key: string): seq<Frame>
  {
    if elems == [] then []
    else
      var n := |elems| - 1;
      ItemFrames(elems[..n], key) +
      if elems[n].Dict? then [Frame(elems[n], Child(key, IndexString(n)))] else []
  }

  lemma {:induction false} ItemFramesSize(elems: seq<Value>, key: string)
    ensures StackSize(ItemFrames(elems, key)) <= ElemsSize(elems)
  {
    if elems != [] {
      var n := |elems| - 1;
      ItemFramesSize(elems[..n], key);
      StackSizeAppend(ItemFrames(elems[..n], key),
        if elems[n].Dict? then [Frame(elems[n], Child(key, IndexString(n)))] else []);
    }
  }

  /** What one field of a popped dict emits: a number at key/name, a
      list's numeric items at key/name/i, nothing otherwise. */
  function FieldScalars(field: Field, key: string): seq<Event>
  {
    var fieldKey := Child(key, field.key);
    if IsNumber(field.value) then [Scalar(fieldKey, field.value)]
    else if field.value.List? then ItemScalars(field.value.elems, fieldKey)
    else []
  }

  function DictScalars(fields: seq<Field>, key: string): seq<Event>
  {
    if fields == [] then []
    else DictScalars(fields[..|fields| - 1], key) + FieldScalars(fields[|fields| - 1], key)
  }

  /** The dict-valued fields of a popped dict, pushed at key/name in order. */
  function DictFrames(fields: seq<Field>, key: string): seq<Frame>
  {
    if fields == [] then []
    else
      var n := |fields| - 1;
      DictFrames(fields[..n], key) +
      if fields[n].value.Dict? then [Frame(fields[n].value, Child(key, fields[n].key))] else []
  }

  lemma {:induction false} DictFramesSize(fields: seq<Field>, key: string)
    ensures StackSize(DictFrames(fields, key)) <= FieldsSize(fields)
  {
    if fields != [] {
      var n := |fields| - 1;
      DictFramesSize(fields[..n], key);
      StackSizeAppend(DictFrames(fields[..n], key),
        if fields[n].value.Dict? then [Frame(fields[n].value, Child(key, fields[n].key))] else []);
    }
  }

  /** Everything emitted when `v` is popped at `key`. */
  function Scalars(v: Value, key: string): seq<Event>
  {
    match v
    case List(elems) => ItemScalars(elems, key)
    case Dict(fields) => DictScalars(fields, key)
    case _ => []
  }

  /** Everything pushed when `v` is popped at `key`, bottom first. */
  function Pushed(v: Value, key: string): seq<Frame>
  {
    match v
    case List(elems) => ItemFrames(elems, key)
    case Dict(fields) => DictFrames(fields, key)
    case _ => []
  }

  /** What a node pushes is smaller than the node: the loop's measure. */
  lemma PushedSmaller(v: Value, key: string)
    ensures StackSize(Pushed(v, key)) < Size(v)
  {
    match v
    case List(elems) => ItemFramesSize(elems, key);
    case Dict(fields) => DictFramesSize(fields, key);
    case _ =>
  }

  // ---------------------------------------------------------------------
  // The specification

  /** What `log_msg(v, key)` emits, in order: the node's own scalars, then
      the walks of what it pushed, last pushed first (LIFO). */
  function Walk(v: Value, key: string): seq<Event>
    decreases Size(v), 0
  {
    PushedSmaller(v, key);
    Scalars(v, key) + WalkStack(Pushed(v, key))
  }

  /** What the loop emits from a given stack on: the top frame's walk,
      then the rest of the stack's. */
  function WalkStack(stack: seq<Frame>): seq<Event>
    decreases StackSize(stack), 1
  {
    if stack == [] then []
    else
      var n := |stack| - 1;
      Walk(stack[n].node, stack[n].key) + WalkStack(stack[..n])
  }

  /** Pushing `b` on top of `a`: b is worked off entirely before a. */
  lemma {:induction false} WalkStackAppend(a: seq<Frame>, b: seq<Frame>)
    ensures WalkStack(a + b) == WalkStack(b) + WalkStack(a)
    decreases |b|
  {
    if b != [] {
      var n := |b| - 1;
      var ab := a + b;
      var top := Walk(b[n].node, b[n].key);
      assert ab[..|ab| - 1] == a + b[..n];
      assert ab[|ab| - 1] == b[n];
      calc {
        WalkStack(ab);
        top + WalkStack(a + b[..n]);
        { WalkStackAppend(a, b[..n]); }
        top + (WalkStack(b[..n]) + WalkStack(a));
        { SeqAssoc3(top, WalkStack(b[..n]), WalkStack(a)); }
        (top + WalkStack(b[..n])) + WalkStack(a);
        WalkStack(b) + WalkStack(a);
      }
    } else {
      assert a + b == a;
    }
  }

  // One more item or field scanned: the step the loops below take.

  lemma ItemStep(elems: seq<Value>, i: nat, key: string)
    requires i < |elems|
    ensures ItemScalars(elems[..i + 1], key) == ItemScalars(elems[..i], key) +
      if IsNumber(elems[i]) then [Scalar(Child(key, IndexString(i)), elems[i])] else []
    ensures ItemFrames(elems[..i + 1], key) == ItemFrames(elems[..i], key) +
      if elems[i].Dict? then [Frame(elems[i], Child(key, IndexString(i)))] else []
  {
    assert elems[..i + 1][..i] == elems[..i];
  }

  lemma FieldStep(fields: seq<Field>, i: nat, key: string)
    requires i < |fields|
    ensures DictScalars(fields[..i + 1], key) == DictScalars(fields[..i], key) + FieldScalars(fields[i], key)
    ensures DictFrames(fields[..i + 1], key) == DictFrames(fields[..i], key) +
      if fields[i].value.Dict? then [Frame(fields[i].value, Child(key, fields[i].key))] else []
  {
    assert fields[..i + 1][..i] == fields[..i];
  }

  // ---------------------------------------------------------------------
  // The loop

  /** One turn of the loop: popping `current` off `below + [current]`,
      emitting its scalars and pushing what it pushes keeps the emitted
      output plus the walk of the stack unchanged, and shrinks the stack. */
  lemma PopStep(emitted: seq<Event>, below: seq<Frame>, current: Frame, goal: seq<Event>)
    requires emitted + WalkStack(below + [current]) == goal
    ensures (emitted + Scalars(current.node, current.key)) +
      WalkStack(below + Pushed(current.node, current.key)) == goal
    ensures StackSize(below + Pushed(current.node, current.key)) < StackSize(below + [current])
  {
    var pushed := Pushed(current.node, current.key);
    var scalars := Scalars(current.node, current.key);
    assert (below + [current])[..|below|] == below;
    assert WalkStack(below + [current]) == Walk(current.node, current.key) + WalkStack(below);
    assert Walk(current.node, current.key) == scalars + WalkStack(pushed);
    WalkStackAppend(below, pushed);
    StackSizeAppend(below, pushed);
    PushedSmaller(current.node, current.key);
    SeqAssoc(emitted, scalars, WalkStack(pushed), WalkStack(below));
  }

  lemma SeqAssoc3<T>(a: seq<T>, b: seq<T>, c: seq<T>)
    ensures (a + b) + c == a + (b + c)
  {
  }

  lemma SeqAssoc(a: seq<Event>, b: seq<Event>, c: seq<Event>, d: seq<Event>)
    ensures a + ((b + c) + d) == (a + b) + (c + d)
  {
  }

  /** `log_msg(msg, parent_key)`: pop a node, emit its numeric children,
      push its dict children, until the stack is empty. */
  method LogMsg(msg: Value, parentKey: string) returns (emitted: seq<Event>)
    ensures emitted == Walk(msg, parentKey)
  {
    var stack := [Frame(msg, parentKey)];
    emitted := [];
    ghost var goal := Walk(msg, parentKey);
    assert WalkStack(stack) == goal + WalkStack([]);
    while stack != []
      invariant emitted + WalkStack(stack) == goal
      decreases StackSize(stack)
    {
      ghost var before := stack;
      var current := stack[|stack| - 1];
      stack := stack[..|stack| - 1];
      assert stack + [current] == before;
      PopStep(emitted, stack, current, goal);
      stack, emitted := Visit(current, stack, emitted);
    }
  }

  /** The body of the loop for one popped frame: lists and dicts are
      scanned, any other node is not plottable and is passed over. */
  method Visit(current: Frame, stack: seq<Frame>, emitted: seq<Event>)
    returns (stack': seq<Frame>, emitted': seq<Event>)
    ensures emitted' == emitted + Scalars(current.node, current.key)
    ensures stack' == stack + Pushed(current.node, current.key)
  {
    match current.node {
      case List(elems) =>
        stack', emitted' := ScanList(elems, current.key, stack, emitted);
      case Dict(fields) =>
        stack', emitted' := ScanDict(fields, current.key, stack, emitted);
      case _ =>
        stack', emitted' := stack, emitted;
    }
  }

  /** `for index, item in enumerate(current_msg)` over a popped list:
      numbers are emitted, dicts pushed, anything else (nested lists
      included) dropped. */
  method ScanList(elems: seq<Value>, key: string, stack: seq<Frame>, emitted: seq<Event>)
    returns (stack': seq<Frame>, emitted': seq<Event>)
    ensures emitted' == emitted + ItemScalars(elems, key)
    ensures stack' == stack + ItemFrames(elems, key)
  {
    stack', emitted' := stack, emitted;
    var index := 0;
    while index < |elems|
      invariant index <= |elems|
      invariant emitted' == emitted + ItemScalars(elems[..index], key)
      invariant stack' == stack + ItemFrames(elems[..index], key)
    {
      var item := elems[index];
      var newKey := Child(key, IndexString(index));
      ItemStep(elems, index, key);
      SeqAssoc3(emitted, ItemScalars(elems[..index], key),
        if IsNumber(item) then [Scalar(newKey, item)] else []);
      SeqAssoc3(stack, ItemFrames(elems[..index], key),
        if item.Dict? then [Frame(item, newKey)] else []);
      if IsNumber(item) {
        emitted' := emitted' + [Scalar(newKey, item)];
      } else if item.Dict? {
        stack' := stack' + [Frame(item, newKey)];
      }
      index := index + 1;
    }
    assert elems[..index] == elems;
  }

  /** `for key, value in current_msg.items()` over a popped dict: each
      field is handled in insertion order. */
  method ScanDict(fields: seq<Field>, key: string, stack: seq<Frame>, emitted: seq<Event>)
    returns (stack': seq<Frame>, emitted': seq<Event>)
    ensures emitted' == emitted + DictScalars(fields, key)
    ensures stack' == stack + DictFrames(fields, key)
  {
    stack', emitted' := stack, emitted;
    var i := 0;
    while i < |fields|
      invariant i <= |fields|
      invariant emitted' == emitted + DictScalars(fields[..i], key)
      invariant stack' == stack + DictFrames(fields[..i], key)
    {
      FieldStep(fields, i, key);
      SeqAssoc3(emitted, DictScalars(fields[..i], key), FieldScalars(fields[i], key));
      SeqAssoc3(stack, DictFrames(fields[..i], key),
        if fields[i].value.Dict? then [Frame(fields[i].value, Child(key, fields[i].key))] else []);
      stack', emitted' := ScanField(fields[i], key, stack', emitted');
      i := i + 1;
    }
    assert fields[..i] == fields;
  }

  /** One field of a popped dict: a number is emitted, a dict pushed, a list
      scanned one level, anything else dropped. */
  method ScanField(field: Field, key: string, stack: seq<Frame>, emitted: seq<Event>)
    returns (stack': seq<Frame>, emitted': seq<Event>)
    ensures emitted' == emitted + FieldScalars(field, key)
    ensures stack' == stack + if field.value.Dict? then [Frame(field.value, Child(key, field.key))] else []
  {
    var value := field.value;
    var newKey := Child(key, field.key);
    stack', emitted' := stack, emitted;
    if IsNumber(value) {
      emitted' := emitted' + [Scalar(newKey, value)];
    } else if value.Dict? {
      stack' := stack' + [Frame(value, newKey)];
    } else if value.List? {
      emitted' := ScanFieldList(value.elems, newKey, emitted');
    }
  }

  /** `for index, item in enumerate(value)` over a list-valued field: only
      numbers are emitted, at key/index; dicts and lists inside are dropped. */
  method ScanFieldList(elems: seq<Value>, key: string, emitted: seq<Event>)
    returns (emitted': seq<Event>)
    ensures emitted' == emitted + ItemScalars(elems, key)
  {
    emitted' := emitted;
    var index := 0;
    while index < |elems|
      invariant index <= |elems|
      invariant emitted' == emitted + ItemScalars(elems[..index], key)
    {
      var item := elems[index];
      ItemStep(elems, index, key);
      SeqAssoc3(emitted, ItemScalars(elems[..index], key),
        if IsNumber(item) then [Scalar(Child(key, IndexString(index)), item)] else []);
      if IsNumber(item) {
        emitted' := emitted' + [Scalar(Child(key, IndexString(index)), item)];
      }
      index := index + 1;
    }
    assert elems[..index] == elems;
  }
}
