/**
 * What `log_msg` emits, stated without the stack: every emission is a
 * numeric leaf below the prefix, the emissions are exactly the leaves the
 * walking rules reach, and in a well-formed payload no path is emitted twice.
 */
module WalkProperties {
  import opened Payload
  import opened Recording
  import opened Walker

  // ---------------------------------------------------------------------
  // Paths

  /** `path` names something strictly below the node at `key`: it is
      `key`, a '/', then one or more segments. */
  predicate Below(path: string, key: string) {
    |key| < |path| && path[..|key| + 1] == key + "/"
  }

  /** `path` names the node at `key` or something below it. */
  predicate Under(path: string, key: string) {
    path == key || Below(path, key)
  }

  /** Neither node lies below the other, so no path is under both. */
  predicate Apart(q1: string, q2: string) {
    !Under(q1, q2) && !Under(q2, q1)
  }

  lemma BelowChild(key: string, segment: string)
    ensures Below(Child(key, segment), key)
  {
    assert Child(key, segment)[..|key| + 1] == key + "/";
  }

  lemma BelowTransitive(p: string, q: string, r: string)
    requires Below(p, q) && Below(q, r)
    ensures Below(p, r)
  {
    assert p[..|r| + 1] == p[..|q| + 1][..|r| + 1];
  }

  /** Two nodes above one path: the shorter one is above the longer. */
  lemma UnderComparable(path: string, q1: string, q2: string)
    requires Under(path, q1) && Under(path, q2) && |q1| <= |q2|
    ensures Under(q2, q1)
  {
    assert q1 == path[..|q1|];
    assert q2 == path[..|q2|];
    if |q1| < |q2| {
      assert path[|q1|] == '/';
      assert q2[..|q1| + 1] == path[..|q1| + 1];
    }
  }

  lemma ApartDisjoint(q1: string, q2: string, path: string)
    requires Apart(q1, q2)
    ensures !(Under(path, q1) && Under(path, q2))
  {
    if Under(path, q1) && Under(path, q2) {
      if |q1| <= |q2| {
        UnderComparable(path, q1, q2);
      } else {
        UnderComparable(path, q2, q1);
      }
    }
  }

  /** Sibling nodes, reached from one parent by different segments, are apart. */
  lemma SiblingsApart(key: string, s1: string, s2: string)
    requires NoSlash(s1) && NoSlash(s2) && s1 != s2
    ensures Apart(Child(key, s1), Child(key, s2))
  {
    SiblingNotUnder(key, s1, s2);
    SiblingNotUnder(key, s2, s1);
  }

  lemma SiblingNotUnder(key: string, s1: string, s2: string)
    requires NoSlash(s1) && s1 != s2
    ensures !Under(Child(key, s1), Child(key, s2))
  {
    var c1, c2 := Child(key, s1), Child(key, s2);
    assert c1[|key| + 1..] == s1;
    assert c2[|key| + 1..] == s2;
    if |c2| < |c1| {
      assert c1[|c2|] == s1[|s2|];
      assert (c2 + "/")[|c2|] == '/';
    }
  }

  lemma IndexChildrenDistinct(key: string, i: nat, j: nat)
    requires i != j
    ensures Child(key, IndexString(i)) != Child(key, IndexString(j))
    ensures Apart(Child(key, IndexString(i)), Child(key, IndexString(j)))
  {
    IndexStringInjective(i, j);
    SiblingsApart(key, IndexString(i), IndexString(j));
  }

  // ---------------------------------------------------------------------
  // Every emission is a number below the prefix

  /** A scalar emitted for a numeric leaf somewhere below `key`. */
  predicate PointBelow(e: Event, key: string) {
    e.Scalar? && IsNumber(e.value) && Below(e.path, key)
  }

  lemma {:induction false} ItemScalarsBelow(elems: seq<Value>, key: string)
    ensures forall e :: e in ItemScalars(elems, key) ==> PointBelow(e, key)
  {
    if elems != [] {
      var n := |elems| - 1;
      ItemScalarsBelow(elems[..n], key);
      BelowChild(key, IndexString(n));
    }
  }

  lemma {:induction false} DictScalarsBelow(fields: seq<Field>, key: string)
    ensures forall e :: e in DictScalars(fields, key) ==> PointBelow(e, key)
  {
    if fields != [] {
      var n := |fields| - 1;
      DictScalarsBelow(fields[..n], key);
      var fieldKey := Child(key, fields[n].key);
      BelowChild(key, fields[n].key);
      if fields[n].value.List? {
        ItemScalarsBelow(fields[n].value.elems, fieldKey);
        forall e | e in ItemScalars(fields[n].value.elems, fieldKey)
          ensures PointBelow(e, key)
        {
          BelowTransitive(e.path, fieldKey, key);
        }
      }
    }
  }

  lemma {:induction false} ItemFramesBelow(elems: seq<Value>, key: string)
    ensures forall f :: f in ItemFrames(elems, key) ==> Below(f.key, key)
  {
    if elems != [] {
      var n := |elems| - 1;
      ItemFramesBelow(elems[..n], key);
      BelowChild(key, IndexString(n));
    }
  }

  lemma {:induction false} DictFramesBelow(fields: seq<Field>, key: string)
    ensures forall f :: f in DictFrames(fields, key) ==> Below(f.key, key)
  {
    if fields != [] {
      var n := |fields| - 1;
      DictFramesBelow(fields[..n], key);
      BelowChild(key, fields[n].key);
    }
  }

  /** Only numbers are emitted (int, float and bool alike), every path
      starts with the prefix and a '/', and a root that is neither a dict
      nor a list, a bare number included, emits nothing. */
  lemma {:induction false} WalkBelow(v: Value, key: string)
    ensures forall e :: e in Walk(v, key) ==> PointBelow(e, key)
    ensures !v.Dict? && !v.List? ==> Walk(v, key) == []
    decreases Size(v), 0
  {
    PushedSmaller(v, key);
    match v {
      case List(elems) =>
        ItemScalarsBelow(elems, key);
        ItemFramesBelow(elems, key);
      case Dict(fields) =>
        DictScalarsBelow(fields, key);
        DictFramesBelow(fields, key);
      case _ =>
    }
    WalkStackBelow(Pushed(v, key), key);
  }

  lemma {:induction false} WalkStackBelow(stack: seq<Frame>, key: string)
    requires forall f :: f in stack ==> Below(f.key, key)
    ensures forall e :: e in WalkStack(stack) ==> PointBelow(e, key)
    decreases StackSize(stack), 1
  {
    if stack != [] {
      var n := |stack| - 1;
      var top := stack[n];
      assert top in stack;
      WalkBelow(top.node, top.key);
      forall e | e in Walk(top.node, top.key)
        ensures PointBelow(e, key)
      {
        BelowTransitive(e.path, top.key, key);
      }
      assert forall f :: f in stack[..n] ==> f in stack;
      WalkStackBelow(stack[..n], key);
    }
  }

  // ---------------------------------------------------------------------
  // The emissions are exactly the leaves the walking rules reach

  /** Item i of a list scanned under `key` is a number, emitted at key/i. */
  ghost predicate NumberAt(elems: seq<Value>, key: string, i: int, path: string, x: Value) {
    0 <= i < |elems| && IsNumber(elems[i]) && path == Child(key, IndexString(i)) && x == elems[i]
  }

  /** Field `field` of a dict popped at `key` yields the point (path, x)
      itself: a number at key/name, or a number item j of a list-valued
      field at key/name/j. */
  ghost predicate FieldPoint(field: Field, key: string, path: string, x: Value) {
    var fieldKey := Child(key, field.key);
    (IsNumber(field.value) && path == fieldKey && x == field.value) ||
    (field.value.List? && exists j :: NumberAt(field.value.elems, fieldKey, j, path, x))
  }

  /** The walking rules, as a relation: `log_msg(v, key)` should emit the
      scalar x at `path`. A list's numbers are emitted and its dicts walked;
      a dict's numbers are emitted, its dicts walked, and its lists scanned
      one level; nothing else is plottable. */
  ghost predicate Emits(v: Value, key: string, path: string, x: Value) {
    match v
    case List(elems) =>
      exists i :: 0 <= i < |elems| &&
        (NumberAt(elems, key, i, path, x) ||
         (elems[i].Dict? && Emits(elems[i], Child(key, IndexString(i)), path, x)))
    case Dict(fields) =>
      exists i :: 0 <= i < |fields| &&
        (FieldPoint(fields[i], key, path, x) ||
         (fields[i].value.Dict? && Emits(fields[i].value, Child(key, fields[i].key), path, x)))
    case _ => false
  }

  /** Some item of the list is the number x at `path`. */
  ghost predicate ListPoint(elems: seq<Value>, key: string, path: string, x: Value) {
    exists i :: NumberAt(elems, key, i, path, x)
  }

  lemma ListPointSnoc(elems: seq<Value>, key: string, path: string, x: Value)
    requires elems != []
    ensures ListPoint(elems, key, path, x) <==>
      ListPoint(elems[..|elems| - 1], key, path, x) || NumberAt(elems, key, |elems| - 1, path, x)
  {
    var n := |elems| - 1;
    if i :| NumberAt(elems, key, i, path, x) {
      if i < n {
        assert NumberAt(elems[..n], key, i, path, x);
      }
    }
    if i :| NumberAt(elems[..n], key, i, path, x) {
      assert NumberAt(elems, key, i, path, x);
    }
  }

  lemma {:induction false} ItemScalarsMember(elems: seq<Value>, key: string, path: string, x: Value)
    ensures Scalar(path, x) in ItemScalars(elems, key) <==> ListPoint(elems, key, path, x)
  {
    if elems != [] {
      var n := |elems| - 1;
      ItemScalarsMember(elems[..n], key, path, x);
      ListPointSnoc(elems, key, path, x);
    }
  }

  /** Item i of the list is a dict, pushed at key/i. */
  ghost predicate ItemPushed(elems: seq<Value>, key: string, i: int, f: Frame) {
    0 <= i < |elems| && elems[i].Dict? && f == Frame(elems[i], Child(key, IndexString(i)))
  }

  ghost predicate ListPushes(elems: seq<Value>, key: string, f: Frame) {
    exists i :: ItemPushed(elems, key, i, f)
  }

  lemma ItemPushedSnoc(elems: seq<Value>, key: string, f: Frame)
    requires elems != []
    ensures ListPushes(elems, key, f) <==>
      ListPushes(elems[..|elems| - 1], key, f) || ItemPushed(elems, key, |elems| - 1, f)
  {
    var n := |elems| - 1;
    if i :| ItemPushed(elems, key, i, f) {
      if i < n {
        assert ItemPushed(elems[..n], key, i, f);
      }
    }
    if i :| ItemPushed(elems[..n], key, i, f) {
      assert ItemPushed(elems, key, i, f);
    }
  }

  lemma {:induction false} ItemFramesMember(elems: seq<Value>, key: string, f: Frame)
    ensures f in ItemFrames(elems, key) <==> ListPushes(elems, key, f)
  {
    if elems != [] {
      var n := |elems| - 1;
      ItemFramesMember(elems[..n], key, f);
      ItemPushedSnoc(elems, key, f);
    }
  }

  lemma FieldScalarsMember(field: Field, key: string, path: string, x: Value)
    ensures Scalar(path, x) in FieldScalars(field, key) <==> FieldPoint(field, key, path, x)
  {
    if field.value.List? {
      ItemScalarsMember(field.value.elems, Child(key, field.key), path, x);
    }
  }

  /** Some field of the dict yields the point (path, x). */
  ghost predicate DictPoint(fields: seq<Field>, key: string, path: string, x: Value) {
    exists i :: 0 <= i < |fields| && FieldPoint(fields[i], key, path, x)
  }

  lemma DictPointSnoc(fields: seq<Field>, key: string, path: string, x: Value)
    requires fields != []
    ensures DictPoint(fields, key, path, x) <==>
      DictPoint(fields[..|fields| - 1], key, path, x) || FieldPoint(fields[|fields| - 1], key, path, x)
  {
    var n := |fields| - 1;
    if i :| 0 <= i < |fields| && FieldPoint(fields[i], key, path, x) {
      if i < n {
        assert fields[..n][i] == fields[i];
      }
    }
    if i :| 0 <= i < n && FieldPoint(fields[..n][i], key, path, x) {
      assert fields[..n][i] == fields[i];
    }
  }

  lemma {:induction false} DictScalarsMember(fields: seq<Field>, key: string, path: string, x: Value)
    ensures Scalar(path, x) in DictScalars(fields, key) <==> DictPoint(fields, key, path, x)
  {
    if fields != [] {
      var n := |fields| - 1;
      assert DictScalars(fields, key) == DictScalars(fields[..n], key) + FieldScalars(fields[n], key);
      DictScalarsMember(fields[..n], key, path, x);
      FieldScalarsMember(fields[n], key, path, x);
      DictPointSnoc(fields, key, path, x);
    }
  }

  /** Field i of the dict holds a dict, pushed at key/name. */
  ghost predicate FieldPushed(fields: seq<Field>, key: string, i: int, f: Frame) {
    0 <= i < |fields| && fields[i].value.Dict? && f == Frame(fields[i].value, Child(key, fields[i].key))
  }

  ghost predicate DictPushes(fields: seq<Field>, key: string, f: Frame) {
    exists i :: FieldPushed(fields, key, i, f)
  }

  lemma FieldPushedSnoc(fields: seq<Field>, key: string, f: Frame)
    requires fields != []
    ensures DictPushes(fields, key, f) <==>
      DictPushes(fields[..|fields| - 1], key, f) || FieldPushed(fields, key, |fields| - 1, f)
  {
    var n := |fields| - 1;
    if i :| FieldPushed(fields, key, i, f) {
      if i < n {
        assert FieldPushed(fields[..n], key, i, f);
      }
    }
    if i :| FieldPushed(fields[..n], key, i, f) {
      assert FieldPushed(fields, key, i, f);
    }
  }

  lemma {:induction false} DictFramesMember(fields: seq<Field>, key: string, f: Frame)
    ensures f in DictFrames(fields, key) <==> DictPushes(fields, key, f)
  {
    if fields != [] {
      var n := |fields| - 1;
      DictFramesMember(fields[..n], key, f);
      FieldPushedSnoc(fields, key, f);
    }
  }

  /** Some frame of the stack walks to the event. */
  ghost predicate StackEmits(stack: seq<Frame>, e: Event) {
    exists f :: f in stack && e in Walk(f.node, f.key)
  }

  lemma StackEmitsSnoc(stack: seq<Frame>, e: Event)
    requires stack != []
    ensures StackEmits(stack, e) <==>
      StackEmits(stack[..|stack| - 1], e) || e in Walk(stack[|stack| - 1].node, stack[|stack| - 1].key)
  {
    var n := |stack| - 1;
    assert stack == stack[..n] + [stack[n]];
    if f :| f in stack && e in Walk(f.node, f.key) {
      if f != stack[n] {
        assert f in stack[..n];
      }
    }
    if f :| f in stack[..n] && e in Walk(f.node, f.key) {
      assert f in stack;
    }
  }

  lemma {:induction false} WalkStackMember(stack: seq<Frame>, e: Event)
    ensures e in WalkStack(stack) <==> StackEmits(stack, e)
  {
    if stack != [] {
      var n := |stack| - 1;
      var top := stack[n];
      assert WalkStack(stack) == Walk(top.node, top.key) + WalkStack(stack[..n]);
      WalkStackMember(stack[..n], e);
      StackEmitsSnoc(stack, e);
    }
  }


  /** `log_msg(v, key)` emits the scalar x at `path` exactly when the
      walking rules say it should. */
  lemma {:induction false} WalkEmitsExactly(v: Value, key: string, path: string, x: Value)
    ensures Scalar(path, x) in Walk(v, key) <==> Emits(v, key, path, x)
    decreases v, 2
  {
    match v {
      case List(elems) => ListWalkEmitsExactly(v, key, path, x);
      case Dict(fields) => DictWalkEmitsExactly(v, key, path, x);
      case _ =>
    }
  }

  lemma {:induction false} ListWalkEmitsExactly(v: Value, key: string, path: string, x: Value)
    requires v.List?
    ensures Scalar(path, x) in Walk(v, key) <==> Emits(v, key, path, x)
    decreases v, 1
  {
    var elems := v.elems;
    assert Walk(v, key) == ItemScalars(elems, key) + WalkStack(ItemFrames(elems, key));
    ItemScalarsMember(elems, key, path, x);
    WalkStackMember(ItemFrames(elems, key), Scalar(path, x));
    if StackEmits(ItemFrames(elems, key), Scalar(path, x)) {
      ListWalkSound(v, key, path, x);
    }
    if Emits(v, key, path, x) && !ListPoint(elems, key, path, x) {
      ListWalkComplete(v, key, path, x);
    }
  }

  lemma {:induction false} ListWalkSound(v: Value, key: string, path: string, x: Value)
    requires v.List? && StackEmits(ItemFrames(v.elems, key), Scalar(path, x))
    ensures Emits(v, key, path, x)
    decreases v, 0
  {
    var elems := v.elems;
    var f :| f in ItemFrames(elems, key) && Scalar(path, x) in Walk(f.node, f.key);
    ItemFramesMember(elems, key, f);
    var i :| ItemPushed(elems, key, i, f);
    WalkEmitsExactly(elems[i], f.key, path, x);
  }

  lemma {:induction false} ListWalkComplete(v: Value, key: string, path: string, x: Value)
    requires v.List? && Emits(v, key, path, x) && !ListPoint(v.elems, key, path, x)
    ensures StackEmits(ItemFrames(v.elems, key), Scalar(path, x))
    decreases v, 0
  {
    var elems := v.elems;
    var i :| 0 <= i < |elems| &&
      (NumberAt(elems, key, i, path, x) ||
       (elems[i].Dict? && Emits(elems[i], Child(key, IndexString(i)), path, x)));
    var f := Frame(elems[i], Child(key, IndexString(i)));
    WalkEmitsExactly(elems[i], f.key, path, x);
    assert ItemPushed(elems, key, i, f);
    ItemFramesMember(elems, key, f);
  }

  lemma {:induction false} DictWalkEmitsExactly(v: Value, key: string, path: string, x: Value)
    requires v.Dict?
    ensures Scalar(path, x) in Walk(v, key) <==> Emits(v, key, path, x)
    decreases v, 1
  {
    var fields := v.fields;
    assert Walk(v, key) == DictScalars(fields, key) + WalkStack(DictFrames(fields, key));
    DictScalarsMember(fields, key, path, x);
    WalkStackMember(DictFrames(fields, key), Scalar(path, x));
    if StackEmits(DictFrames(fields, key), Scalar(path, x)) {
      DictWalkSound(v, key, path, x);
    }
    if Emits(v, key, path, x) && !DictPoint(fields, key, path, x) {
      DictWalkComplete(v, key, path, x);
    }
  }

  lemma {:induction false} DictWalkSound(v: Value, key: string, path: string, x: Value)
    requires v.Dict? && StackEmits(DictFrames(v.fields, key), Scalar(path, x))
    ensures Emits(v, key, path, x)
    decreases v, 0
  {
    var fields := v.fields;
    var f :| f in DictFrames(fields, key) && Scalar(path, x) in Walk(f.node, f.key);
    DictFramesMember(fields, key, f);
    var i :| FieldPushed(fields, key, i, f);
    WalkEmitsExactly(fields[i].value, f.key, path, x);
  }

  lemma {:induction false} DictWalkComplete(v: Value, key: string, path: string, x: Value)
    requires v.Dict? && Emits(v, key, path, x) && !DictPoint(v.fields, key, path, x)
    ensures StackEmits(DictFrames(v.fields, key), Scalar(path, x))
    decreases v, 0
  {
    var fields := v.fields;
    var i :| 0 <= i < |fields| &&
      (FieldPoint(fields[i], key, path, x) ||
       (fields[i].value.Dict? && Emits(fields[i].value, Child(key, fields[i].key), path, x)));
    var f := Frame(fields[i].value, Child(key, fields[i].key));
    WalkEmitsExactly(fields[i].value, f.key, path, x);
    assert FieldPushed(fields, key, i, f);
    DictFramesMember(fields, key, f);
  }


  // ---------------------------------------------------------------------
  // In a well-formed payload each leaf is emitted once

  /** No two scalars in `s` share a path. */
  predicate DistinctPaths(s: seq<Event>) {
    forall i, j :: 0 <= i < j < |s| && s[i].Scalar? && s[j].Scalar? ==> s[i].path != s[j].path
  }

  lemma DistinctAppend(a: seq<Event>, b: seq<Event>)
    requires DistinctPaths(a) && DistinctPaths(b)
    requires forall e1, e2 :: e1 in a && e2 in b && e1.Scalar? && e2.Scalar? ==> e1.path != e2.path
    ensures DistinctPaths(a + b)
  {
    forall i, j | 0 <= i < j < |a + b| && (a + b)[i].Scalar? && (a + b)[j].Scalar?
      ensures (a + b)[i].path != (a + b)[j].path
    {
      if j < |a| {
        assert (a + b)[i] == a[i] && (a + b)[j] == a[j];
      } else if i < |a| {
        assert (a + b)[i] in a && (a + b)[j] in b;
      } else {
        assert (a + b)[i] == b[i - |a|] && (a + b)[j] == b[j - |a|];
      }
    }
  }

  lemma FieldPointUnder(field: Field, key: string, path: string, x: Value)
    requires FieldPoint(field, key, path, x)
    ensures Under(path, Child(key, field.key)) && !field.value.Dict?
  {
    var fieldKey := Child(key, field.key);
    if !(IsNumber(field.value) && path == fieldKey) {
      var j :| NumberAt(field.value.elems, fieldKey, j, path, x);
      BelowChild(fieldKey, IndexString(j));
    }
  }

  lemma {:induction false} ItemScalarsDistinct(elems: seq<Value>, key: string)
    ensures DistinctPaths(ItemScalars(elems, key))
  {
    if elems != [] {
      var n := |elems| - 1;
      ItemScalarsDistinct(elems[..n], key);
      var last := if IsNumber(elems[n]) then [Scalar(Child(key, IndexString(n)), elems[n])] else [];
      forall e1, e2 | e1 in ItemScalars(elems[..n], key) && e2 in last && e1.Scalar? && e2.Scalar?
        ensures e1.path != e2.path
      {
        ItemScalarsMember(elems[..n], key, e1.path, e1.value);
        var i :| NumberAt(elems[..n], key, i, e1.path, e1.value);
        IndexChildrenDistinct(key, i, n);
      }
      DistinctAppend(ItemScalars(elems[..n], key), last);
    }
  }

  lemma FieldScalarsDistinct(field: Field, key: string)
    ensures DistinctPaths(FieldScalars(field, key))
  {
    if field.value.List? {
      ItemScalarsDistinct(field.value.elems, Child(key, field.key));
    }
  }

  /** The fields of a dict in a well-formed payload. */
  predicate DistinctSegments(fields: seq<Field>) {
    UniqueKeys(fields) && forall i :: 0 <= i < |fields| ==> NoSlash(fields[i].key)
  }

  /** A point an earlier field yields and a point the last field yields lie
      at different paths, since sibling keys are distinct and '/'-free. */
  lemma LastFieldApart(fields: seq<Field>, key: string, e1: Event, e2: Event)
    requires fields != [] && DistinctSegments(fields)
    requires e1.Scalar? && e1 in DictScalars(fields[..|fields| - 1], key)
    requires e2.Scalar? && e2 in FieldScalars(fields[|fields| - 1], key)
    ensures e1.path != e2.path
  {
    var n := |fields| - 1;
    var init := fields[..n];
    DictScalarsMember(init, key, e1.path, e1.value);
    var i :| 0 <= i < |init| && FieldPoint(init[i], key, e1.path, e1.value);
    assert init[i] == fields[i];
    FieldPointUnder(fields[i], key, e1.path, e1.value);
    FieldScalarsMember(fields[n], key, e2.path, e2.value);
    FieldPointUnder(fields[n], key, e2.path, e2.value);
    SiblingsApart(key, fields[i].key, fields[n].key);
    ApartDisjoint(Child(key, fields[i].key), Child(key, fields[n].key), e1.path);
  }

  lemma {:induction false} DictScalarsDistinct(fields: seq<Field>, key: string)
    requires DistinctSegments(fields)
    ensures DistinctPaths(DictScalars(fields, key))
  {
    if fields != [] {
      var n := |fields| - 1;
      var init := fields[..n];
      assert DistinctSegments(init) by {
        assert forall i :: 0 <= i < n ==> init[i] == fields[i];
      }
      DictScalarsDistinct(init, key);
      FieldScalarsDistinct(fields[n], key);
      forall e1, e2 | e1 in DictScalars(init, key) && e2 in FieldScalars(fields[n], key) && e1.Scalar? && e2.Scalar?
        ensures e1.path != e2.path
      {
        LastFieldApart(fields, key, e1, e2);
      }
      DistinctAppend(DictScalars(init, key), FieldScalars(fields[n], key));
    }
  }


  /** The keys of a stack's frames are pairwise apart. */
  predicate KeysApart(stack: seq<Frame>) {
    forall i, j :: 0 <= i < j < |stack| ==> Apart(stack[i].key, stack[j].key)
  }

  lemma KeysApartSnoc(stack: seq<Frame>, f: Frame)
    requires KeysApart(stack)
    requires forall g :: g in stack ==> Apart(g.key, f.key)
    ensures KeysApart(stack + [f])
  {
    forall i, j | 0 <= i < j < |stack + [f]|
      ensures Apart((stack + [f])[i].key, (stack + [f])[j].key)
    {
      if j < |stack| {
        assert (stack + [f])[i] == stack[i] && (stack + [f])[j] == stack[j];
      } else {
        assert (stack + [f])[i] in stack;
      }
    }
  }

  lemma {:induction false} ItemFramesApart(elems: seq<Value>, key: string)
    ensures KeysApart(ItemFrames(elems, key))
  {
    if elems != [] {
      var n := |elems| - 1;
      ItemFramesApart(elems[..n], key);
      var f := Frame(elems[n], Child(key, IndexString(n)));
      forall g | g in ItemFrames(elems[..n], key)
        ensures Apart(g.key, f.key)
      {
        ItemFramesMember(elems[..n], key, g);
        var i :| ItemPushed(elems[..n], key, i, g);
        IndexChildrenDistinct(key, i, n);
      }
      if elems[n].Dict? {
        KeysApartSnoc(ItemFrames(elems[..n], key), f);
      } else {
        assert ItemFrames(elems, key) == ItemFrames(elems[..n], key);
      }
    }
  }

  lemma {:induction false} DictFramesApart(fields: seq<Field>, key: string)
    requires DistinctSegments(fields)
    ensures KeysApart(DictFrames(fields, key))
  {
    if fields != [] {
      var n := |fields| - 1;
      var init := fields[..n];
      assert forall i :: 0 <= i < n ==> init[i] == fields[i];
      DictFramesApart(init, key);
      var f := Frame(fields[n].value, Child(key, fields[n].key));
      forall g | g in DictFrames(init, key)
        ensures Apart(g.key, f.key)
      {
        DictFramesMember(init, key, g);
        var i :| FieldPushed(init, key, i, g);
        SiblingsApart(key, fields[i].key, fields[n].key);
      }
      if fields[n].value.Dict? {
        KeysApartSnoc(DictFrames(init, key), f);
      } else {
        assert DictFrames(fields, key) == DictFrames(init, key);
      }
    }
  }

  /** In a well-formed payload, `log_msg` never emits a path twice. */
  lemma {:induction false} WalkDistinct(v: Value, key: string)
    requires WellFormed(v)
    ensures DistinctPaths(Walk(v, key))
    decreases Size(v), 1
  {
    match v {
      case List(elems) => ListWalkDistinct(v, key);
      case Dict(fields) => DictWalkDistinct(v, key);
      case _ =>
    }
  }

  /** A number a popped list emits and anything walked from one of its
      dict items lie at different paths. */
  lemma ListLeafApart(elems: seq<Value>, key: string, e1: Event, e2: Event)
    requires e1.Scalar? && e1 in ItemScalars(elems, key)
    requires e2.Scalar? && e2 in WalkStack(ItemFrames(elems, key))
    ensures e1.path != e2.path
  {
    var frames := ItemFrames(elems, key);
    ItemScalarsMember(elems, key, e1.path, e1.value);
    var i :| NumberAt(elems, key, i, e1.path, e1.value);
    WalkStackMember(frames, e2);
    var f :| f in frames && e2 in Walk(f.node, f.key);
    ItemFramesMember(elems, key, f);
    var a :| ItemPushed(elems, key, a, f);
    WalkBelow(f.node, f.key);
    IndexChildrenDistinct(key, i, a);
    ApartDisjoint(Child(key, IndexString(i)), f.key, e1.path);
  }

  /** A point a popped dict emits and anything walked from one of its
      dict fields lie at different paths. */
  lemma DictLeafApart(fields: seq<Field>, key: string, e1: Event, e2: Event)
    requires DistinctSegments(fields)
    requires e1.Scalar? && e1 in DictScalars(fields, key)
    requires e2.Scalar? && e2 in WalkStack(DictFrames(fields, key))
    ensures e1.path != e2.path
  {
    var frames := DictFrames(fields, key);
    DictScalarsMember(fields, key, e1.path, e1.value);
    var i :| 0 <= i < |fields| && FieldPoint(fields[i], key, e1.path, e1.value);
    FieldPointUnder(fields[i], key, e1.path, e1.value);
    WalkStackMember(frames, e2);
    var f :| f in frames && e2 in Walk(f.node, f.key);
    DictFramesMember(fields, key, f);
    var a :| FieldPushed(fields, key, a, f);
    WalkBelow(f.node, f.key);
    SiblingsApart(key, fields[i].key, fields[a].key);
    ApartDisjoint(Child(key, fields[i].key), f.key, e1.path);
  }

  lemma {:induction false} ListWalkDistinct(v: Value, key: string)
    requires v.List? && WellFormed(v)
    ensures DistinctPaths(Walk(v, key))
    decreases Size(v), 0
  {
    var elems := v.elems;
    var frames := ItemFrames(elems, key);
    assert Walk(v, key) == ItemScalars(elems, key) + WalkStack(frames);
    PushedSmaller(v, key);
    ItemScalarsDistinct(elems, key);
    ItemFramesApart(elems, key);
    forall f | f in frames
      ensures WellFormed(f.node)
    {
      ItemFramesMember(elems, key, f);
    }
    WalkStackDistinct(frames);
    forall e1, e2 | e1 in ItemScalars(elems, key) && e2 in WalkStack(frames) && e1.Scalar? && e2.Scalar?
      ensures e1.path != e2.path
    {
      ListLeafApart(elems, key, e1, e2);
    }
    DistinctAppend(ItemScalars(elems, key), WalkStack(frames));
  }

  lemma {:induction false} DictWalkDistinct(v: Value, key: string)
    requires v.Dict? && WellFormed(v)
    ensures DistinctPaths(Walk(v, key))
    decreases Size(v), 0
  {
    var fields := v.fields;
    var frames := DictFrames(fields, key);
    assert Walk(v, key) == DictScalars(fields, key) + WalkStack(frames);
    PushedSmaller(v, key);
    DictScalarsDistinct(fields, key);
    DictFramesApart(fields, key);
    forall f | f in frames
      ensures WellFormed(f.node)
    {
      DictFramesMember(fields, key, f);
    }
    WalkStackDistinct(frames);
    forall e1, e2 | e1 in DictScalars(fields, key) && e2 in WalkStack(frames) && e1.Scalar? && e2.Scalar?
      ensures e1.path != e2.path
    {
      DictLeafApart(fields, key, e1, e2);
    }
    DistinctAppend(DictScalars(fields, key), WalkStack(frames));
  }

  /** What the top frame walks and what the frames below it walk lie at
      different paths, since their keys are apart. */
  lemma TopApartFromRest(stack: seq<Frame>, e1: Event, e2: Event)
    requires stack != [] && KeysApart(stack)
    requires e1.Scalar? && e1 in Walk(stack[|stack| - 1].node, stack[|stack| - 1].key)
    requires e2.Scalar? && e2 in WalkStack(stack[..|stack| - 1])
    ensures e1.path != e2.path
  {
    var n := |stack| - 1;
    var top, rest := stack[n], stack[..n];
    WalkBelow(top.node, top.key);
    WalkStackMember(rest, e2);
    var f :| f in rest && e2 in Walk(f.node, f.key);
    var k :| 0 <= k < n && rest[k] == f;
    assert stack[k] == f;
    assert Apart(f.key, top.key);
    assert Below(e1.path, top.key);
    WalkBelow(f.node, f.key);
    assert Below(e2.path, f.key);
    ApartDisjoint(f.key, top.key, e2.path);
  }

  /** Below the top frame, the stack is still well formed and apart. */
  lemma StackTail(stack: seq<Frame>)
    requires stack != []
    requires forall f :: f in stack ==> WellFormed(f.node)
    requires KeysApart(stack)
    ensures WellFormed(stack[|stack| - 1].node)
    ensures forall f :: f in stack[..|stack| - 1] ==> WellFormed(f.node)
    ensures KeysApart(stack[..|stack| - 1])
  {
    var n := |stack| - 1;
    assert stack[n] in stack;
    assert forall f :: f in stack[..n] ==> f in stack;
    assert forall i :: 0 <= i < n ==> stack[..n][i] == stack[i];
  }

  lemma {:induction false} WalkStackDistinct(stack: seq<Frame>)
    requires forall f :: f in stack ==> WellFormed(f.node)
    requires KeysApart(stack)
    ensures DistinctPaths(WalkStack(stack))
    decreases StackSize(stack), 2
  {
    if stack != [] {
      var n := |stack| - 1;
      var top, rest := stack[n], stack[..n];
      var walked := Walk(top.node, top.key);
      assert WalkStack(stack) == walked + WalkStack(rest);
      StackTail(stack);
      WalkDistinct(top.node, top.key);
      WalkStackDistinct(rest);
      forall e1, e2 | e1 in walked && e2 in WalkStack(rest) && e1.Scalar? && e2.Scalar?
        ensures e1.path != e2.path
      {
        TopApartFromRest(stack, e1, e2);
      }
      DistinctAppend(walked, WalkStack(rest));
    }
  }



  lemma {:induction false} DistinctCount(s: seq<Event>, e: Event)
    requires DistinctPaths(s) && e.Scalar?
    ensures multiset(s)[e] <= 1
  {
    if s != [] {
      var n := |s| - 1;
      assert s == s[..n] + [s[n]];
      assert DistinctPaths(s[..n]);
      DistinctCount(s[..n], e);
      if s[n] == e {
        assert forall k :: 0 <= k < n ==> s[k] != e;
        assert e !in s[..n];
      }
    }
  }

  /** Each numeric leaf the walking rules reach in a well-formed payload is
      emitted exactly once, and nothing else is emitted. */
  lemma EachLeafOnce(v: Value, key: string, path: string, x: Value)
    requires WellFormed(v)
    ensures multiset(Walk(v, key))[Scalar(path, x)] == if Emits(v, key, path, x) then 1 else 0
  {
    WalkEmitsExactly(v, key, path, x);
    WalkDistinct(v, key);
    DistinctCount(Walk(v, key), Scalar(path, x));
  }
}
