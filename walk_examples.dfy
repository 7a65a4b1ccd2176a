/**
 * Small payloads whose walk is computed outright: the naming of a leaf,
 * the last-in-first-out order of sibling dicts, and a leaf the walk does
 * not reach.
 */
module WalkExamples {
  import opened Payload
  import opened Recording
  import opened Walker

  lemma SingleNumberField(name: string, x: Value, key: string)
    requires IsNumber(x)
    ensures Walk(Dict([Field(name, x)]), key) == [Scalar(Child(key, name), x)]
  {
    var fs := [Field(name, x)];
    assert fs[..0] == [];
    assert DictScalars(fs, key) == [Scalar(Child(key, name), x)];
    assert DictFrames(fs, key) == [];
  }

  lemma NumberBetweenDicts(a: Value, x: Value, b: Value)
    requires a.Dict? && IsNumber(x) && b.Dict?
    ensures DictScalars([Field("a", a), Field("n", x), Field("b", b)], "t") == [Scalar("t/n", x)]
    ensures DictFrames([Field("a", a), Field("n", x), Field("b", b)], "t") == [Frame(a, "t/a"), Frame(b, "t/b")]
  {
    var fs := [Field("a", a), Field("n", x), Field("b", b)];
    assert fs[..2] == [Field("a", a), Field("n", x)];
    assert fs[..2][..1] == [Field("a", a)];
    assert fs[..2][..1][..0] == [];
    assert Child("t", "n") == "t/n" && Child("t", "a") == "t/a" && Child("t", "b") == "t/b";
    assert DictScalars(fs[..2][..1], "t") == [];
    assert DictScalars(fs[..2], "t") == [Scalar("t/n", x)];
    assert DictFrames(fs[..2][..1], "t") == [Frame(a, "t/a")];
    assert DictFrames(fs[..2], "t") == [Frame(a, "t/a")];
  }

  lemma SiblingsLifo()
    ensures Walk(Dict([Field("a", Dict([Field("x", Int(1))])), Field("n", Bool(true)), Field("b", Dict([Field("y", Int(2))]))]), "t")
      == [Scalar("t/n", Bool(true)), Scalar("t/b/y", Int(2)), Scalar("t/a/x", Int(1))]
  {
    var a, b := Dict([Field("x", Int(1))]), Dict([Field("y", Int(2))]);
    var fs := [Field("a", a), Field("n", Bool(true)), Field("b", b)];
    NumberBetweenDicts(a, Bool(true), b);
    var frames := [Frame(a, "t/a"), Frame(b, "t/b")];
    SingleNumberField("x", Int(1), "t/a");
    SingleNumberField("y", Int(2), "t/b");
    assert Child("t/a", "x") == "t/a/x" && Child("t/b", "y") == "t/b/y";
    assert frames[..1] == [Frame(a, "t/a")];
    assert frames[..1][..0] == [];
    assert WalkStack(frames[..1]) == Walk(a, "t/a");
    assert WalkStack(frames) == Walk(b, "t/b") + Walk(a, "t/a");
    assert Walk(Dict(fs), "t") == DictScalars(fs, "t") + WalkStack(DictFrames(fs, "t"));
  }

  /** A list held by a dict field is scanned one level only: the numbers
      inside a dict that sits in such a list are never plotted. */
  lemma DictInListFieldSkipped(name: string, d: Value, key: string)
    requires d.Dict?
    ensures Walk(Dict([Field(name, List([d]))]), key) == []
  {
    var fs := [Field(name, List([d]))];
    assert fs[..0] == [] && [d][..0] == [];
    assert ItemScalars([d], Child(key, name)) == [];
    assert DictScalars(fs, key) == [];
    assert DictFrames(fs, key) == [];
  }
}
