/** The `cn` class-name combiner of the demo front-end's utilities:
    `cn(...classes)` keeps the truthy arguments and joins them with single spaces. */
module ClassNames {

  /** One argument of `cn`: a class name, or one of the falsy values `false`, `null`, `undefined`. */
  datatype ClassValue = Name(name: string) | False | Null | Undefined

  /** JavaScript truthiness (`Boolean(v)`) of an argument: only a non-empty string is truthy. */
  predicate Truthy(v: ClassValue) {
    v.Name? && v.name != ""
  }

  /** `classes.filter(Boolean)`: the names of the truthy arguments, in argument order. */
  function Kept(classes: seq<ClassValue>): (r: seq<string>)
    ensures |r| <= |classes|
    ensures forall i :: 0 <= i < |r| ==> r[i] != ""
  {
    if classes == [] then []
    else (if Truthy(classes[0]) then [classes[0].name] else []) + Kept(classes[1..])
  }

  /** The summed length of `parts`. */
  function TotalLength(parts: seq<string>): nat {
    if parts == [] then 0 else |parts[0]| + TotalLength(parts[1..])
  }

  /** `parts.join(sep)`: the parts with `sep` between each neighbouring pair, so the result is as long as the
      parts together plus one separator per neighbouring pair. */
  function Join(parts: seq<string>, sep: string): (r: string)
    ensures |parts| > 0 ==> |r| == TotalLength(parts) + (|parts| - 1) * |sep|
    ensures |parts| == 0 ==> r == ""
  {
    if |parts| == 0 then ""
    else if |parts| == 1 then parts[0]
    else parts[0] + sep + Join(parts[1..], sep)
  }

  /** `cn(...classes)`: empty exactly when nothing is kept, and otherwise one character longer than the
      kept names together for each space between neighbouring kept names. */
  function Cn(classes: seq<ClassValue>): (r: string)
    ensures r == "" <==> Kept(classes) == []
    ensures Kept(classes) != [] ==> |r| == TotalLength(Kept(classes)) + |Kept(classes)| - 1
  {
    Join(Kept(classes), " ")
  }

  /** `s.split(" ")`: the pieces of `s` between its spaces (a reference inverse of joining with spaces). */
  function Split(s: string): (r: seq<string>)
    ensures |r| >= 1
  {
    if s == "" then [""]
    else
      var rest := Split(s[1..]);
      if s[0] == ' ' then [""] + rest else [[s[0]] + rest[0]] + rest[1..]
  }

  /** The pieces of `s` between single spaces; none for the empty string. */
  function Words(s: string): seq<string> {
    if s == "" then [] else Split(s)
  }

  // ---------------------------------------------------------------- filtering

  /** Filtering distributes over concatenation: the kept names of `xs + ys` are those of `xs`, then those of `ys`. */
  lemma {:induction false} KeptAppend(xs: seq<ClassValue>, ys: seq<ClassValue>)
    ensures Kept(xs + ys) == Kept(xs) + Kept(ys)
  {
    if xs == [] {
      assert xs + ys == ys;
    } else {
      assert (xs + ys)[1..] == xs[1..] + ys;
      KeptAppend(xs[1..], ys);
    }
  }

  /** Nothing is kept exactly when no argument is truthy. */
  lemma {:induction false} KeptEmpty(xs: seq<ClassValue>)
    ensures Kept(xs) == [] <==> forall i :: 0 <= i < |xs| ==> !Truthy(xs[i])
  {
    if xs != [] {
      KeptEmpty(xs[1..]);
      assert forall i :: 0 <= i < |xs[1..]| ==> xs[1..][i] == xs[i + 1];
    }
  }

  // ---------------------------------------------------------------- joining

  /** Joining two non-empty lists puts exactly one separator between them. */
  lemma {:induction false} JoinAppend(a: seq<string>, b: seq<string>, sep: string)
    requires a != [] && b != []
    ensures Join(a + b, sep) == Join(a, sep) + sep + Join(b, sep)
  {
    if |a| > 1 {
      assert (a + b)[1..] == a[1..] + b;
      JoinAppend(a[1..], b, sep);
    } else {
      assert (a + b)[1..] == b;
    }
  }

  /** A non-empty join begins with the first part and ends with the last one. */
  lemma {:induction false} JoinEdges(parts: seq<string>, sep: string)
    requires parts != []
    ensures |Join(parts, sep)| >= |parts[0]| && |Join(parts, sep)| >= |parts[|parts| - 1]|
    ensures Join(parts, sep)[..|parts[0]|] == parts[0]
    ensures Join(parts, sep)[|Join(parts, sep)| - |parts[|parts| - 1]|..] == parts[|parts| - 1]
  {
    if |parts| > 1 {
      JoinEdges(parts[1..], sep);
      var j := Join(parts, sep);
      var tail := Join(parts[1..], sep);
      assert j == parts[0] + sep + tail;
      assert j[|j| - |tail|..] == tail;
      assert parts[1..][|parts[1..]| - 1] == parts[|parts| - 1];
    }
  }

  // ---------------------------------------------------------------- splitting

  /** A string without spaces splits into itself. */
  lemma {:induction false} SplitNoSpace(a: string)
    requires ' ' !in a
    ensures Split(a) == [a]
  {
    if a != "" {
      SplitNoSpace(a[1..]);
      assert [a[0]] + a[1..] == a;
    }
  }

  /** Splitting `a + " " + b`, where `a` holds no space, yields `a` and then the pieces of `b`. */
  lemma {:induction false} SplitAtSpace(a: string, b: string)
    requires ' ' !in a
    ensures Split(a + " " + b) == [a] + Split(b)
  {
    var s := a + " " + b;
    if a == "" {
      assert s[1..] == b;
    } else {
      assert s[1..] == a[1..] + " " + b;
      SplitAtSpace(a[1..], b);
      assert [a[0]] + a[1..] == a;
    }
  }

  /** Joining space-free parts with spaces and splitting again gives the parts back. */
  lemma {:induction false} SplitJoin(parts: seq<string>)
    requires parts != []
    requires forall i :: 0 <= i < |parts| ==> ' ' !in parts[i]
    ensures Split(Join(parts, " ")) == parts
  {
    if |parts| == 1 {
      SplitNoSpace(parts[0]);
    } else {
      SplitJoin(parts[1..]);
      SplitAtSpace(parts[0], Join(parts[1..], " "));
    }
  }

  // ---------------------------------------------------------------- cn

  /** The result is empty exactly when no argument is truthy (in particular `cn()` is ""). */
  lemma CnEmpty(xs: seq<ClassValue>)
    ensures Cn(xs) == "" <==> forall i :: 0 <= i < |xs| ==> !Truthy(xs[i])
  {
    KeptEmpty(xs);
    var k := Kept(xs);
    if k != [] {
      JoinEdges(k, " ");
    }
  }

  /** A single string comes back unchanged, the empty string included. */
  lemma CnSingle(s: string)
    ensures Cn([Name(s)]) == s
  {
    assert [Name(s)][1..] == [];
  }

  /** A falsy argument (`false`, `null`, `undefined`, "") can be removed anywhere without changing the result. */
  lemma CnDropsFalsy(xs: seq<ClassValue>, v: ClassValue, ys: seq<ClassValue>)
    requires !Truthy(v)
    ensures Cn(xs + [v] + ys) == Cn(xs + ys)
  {
    KeptAppend(xs + [v], ys);
    KeptAppend(xs, [v]);
    KeptAppend(xs, ys);
    assert [v][1..] == [];
    assert Kept([v]) == [];
    assert Kept(xs + [v] + ys) == Kept(xs) + Kept(ys);
  }

  /** Concatenation law: combining two argument lists equals combining the two results. */
  lemma CnConcat(xs: seq<ClassValue>, ys: seq<ClassValue>)
    ensures Cn(xs + ys) == Cn([Name(Cn(xs)), Name(Cn(ys))])
  {
    var a, b := Kept(xs), Kept(ys);
    KeptAppend(xs, ys);
    CnEmpty(xs);
    CnEmpty(ys);
    KeptEmpty(xs);
    KeptEmpty(ys);
    var pair := [Name(Cn(xs)), Name(Cn(ys))];
    KeptAppend([Name(Cn(xs))], [Name(Cn(ys))]);
    assert pair == [Name(Cn(xs))] + [Name(Cn(ys))];
    assert [Name(Cn(xs))][1..] == [] && [Name(Cn(ys))][1..] == [];
    assert Kept([Name(Cn(xs))]) == if Cn(xs) == "" then [] else [Cn(xs)];
    assert Kept([Name(Cn(ys))]) == if Cn(ys) == "" then [] else [Cn(ys)];
    if a == [] {
      assert a + b == b;
    } else if b == [] {
      assert a + b == a;
    } else {
      JoinAppend(a, b, " ");
      assert Cn(xs) != "" && Cn(ys) != "";
      assert Kept(pair) == [Cn(xs), Cn(ys)];
      assert [Cn(xs), Cn(ys)][1..] == [Cn(ys)];
      assert Cn(pair) == Join([Cn(xs), Cn(ys)], " ") == Cn(xs) + " " + Cn(ys);
      assert Cn(xs + ys) == Join(a + b, " ");
    }
  }

  /** Separators appear only between kept names: when no kept name holds a space, the words of the result
      are exactly the kept names, in order. */
  lemma CnWords(xs: seq<ClassValue>)
    requires forall i :: 0 <= i < |xs| && Truthy(xs[i]) ==> ' ' !in xs[i].name
    ensures Words(Cn(xs)) == Kept(xs)
  {
    KeptNoSpace(xs);
    var k := Kept(xs);
    if k != [] {
      JoinEdges(k, " ");
      SplitJoin(k);
    }
  }

  /** Kept names hold no space when no truthy argument does. */
  lemma {:induction false} KeptNoSpace(xs: seq<ClassValue>)
    requires forall i :: 0 <= i < |xs| && Truthy(xs[i]) ==> ' ' !in xs[i].name
    ensures forall j :: 0 <= j < |Kept(xs)| ==> ' ' !in Kept(xs)[j]
  {
    if xs != [] {
      assert forall i :: 0 <= i < |xs[1..]| ==> xs[1..][i] == xs[i + 1];
      KeptNoSpace(xs[1..]);
    }
  }

  /** `cn` adds no space at either end: the result begins with the first kept name and ends with the last. */
  lemma CnEdges(xs: seq<ClassValue>)
    requires Kept(xs) != []
    ensures |Cn(xs)| >= |Kept(xs)[0]| && |Cn(xs)| >= |Kept(xs)[|Kept(xs)| - 1]|
    ensures Cn(xs)[..|Kept(xs)[0]|] == Kept(xs)[0]
    ensures Cn(xs)[|Cn(xs)| - |Kept(xs)[|Kept(xs)| - 1]|..] == Kept(xs)[|Kept(xs)| - 1]
  {
    JoinEdges(Kept(xs), " ");
  }
}
