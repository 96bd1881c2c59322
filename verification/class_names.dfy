/** `cn` from app/lib/utils/index.ts: joins the truthy class names with one space. */
module ClassNames {
  import opened Text

  /** One argument of `cn`: a class string, `undefined`, `null` or `false`. */
  datatype ClassValue = Class(name: string) | Undefined | Null | False

  /** `Boolean(v)`: of these values only a non-empty string is truthy. */
  predicate IsTruthy(v: ClassValue)
  {
    v.Class? && v.name != ""
  }

  /** What one argument contributes to the filtered list. */
  function Kept(v: ClassValue): (r: seq<string>)
    ensures |r| <= 1 && (r == [] <==> !IsTruthy(v))
    ensures IsTruthy(v) ==> r == [v.name]
  {
    if IsTruthy(v) then [v.name] else []
  }

  /** `classes.filter(Boolean)`, as the strings that survive. */
  function Survivors(classes: seq<ClassValue>): (r: seq<string>)
    ensures |r| <= |classes|
  {
    if classes == [] then [] else Kept(classes[0]) + Survivors(classes[1..])
  }

  /** No survivor is the empty string. */
  lemma {:induction false} SurvivorsNonEmpty(classes: seq<ClassValue>)
    ensures forall k | 0 <= k < |Survivors(classes)| :: Survivors(classes)[k] != ""
  {
    if classes != [] {
      SurvivorsNonEmpty(classes[1..]);
    }
  }

  /** Nothing survives exactly when every argument is falsy. */
  lemma {:induction false} SurvivorsEmptyIff(classes: seq<ClassValue>)
    ensures Survivors(classes) == [] <==> forall i | 0 <= i < |classes| :: !IsTruthy(classes[i])
  {
    if classes != [] {
      SurvivorsEmptyIff(classes[1..]);
      assert forall i | 1 <= i < |classes| :: classes[i] == classes[1..][i - 1];
    }
  }

  /** The filter keeps the order of its arguments: it distributes over concatenation. */
  lemma {:induction false} SurvivorsAppend(a: seq<ClassValue>, b: seq<ClassValue>)
    ensures Survivors(a + b) == Survivors(a) + Survivors(b)
  {
    if a == [] {
      assert a + b == b;
    } else {
      assert (a + b)[1..] == a[1..] + b;
      assert (a + b)[0] == a[0];
      var head, tail, rest := Kept(a[0]), Survivors(a[1..]), Survivors(b);
      assert Survivors(a + b) == head + Survivors(a[1..] + b);
      SurvivorsAppend(a[1..], b);
      AppendAssociates(head, tail, rest);
    }
  }

  /** `cn(...classes)` */
  function Cn(classes: seq<ClassValue>): (r: string)
    ensures r == "" <==> forall i | 0 <= i < |classes| :: !IsTruthy(classes[i])
  {
    var parts := Survivors(classes);
    SurvivorsEmptyIff(classes);
    SurvivorsNonEmpty(classes);
    assert parts != [] ==> |Join(parts, " ")| >= |parts[0]| > 0 by {
      if parts != [] {
        JoinAppend([parts[0]], parts[1..], " ");
        assert [parts[0]] + parts[1..] == parts;
      }
    }
    Join(parts, " ")
  }

  /** A single argument comes back as it is when truthy, and as `""` otherwise. */
  lemma CnSingle(v: ClassValue)
    ensures Cn([v]) == if IsTruthy(v) then v.name else ""
  {
    assert [v][1..] == [];
  }

  /** The result for `a + b` is the result for `a`, one space, and the result for `b`. */
  lemma CnAppend(a: seq<ClassValue>, b: seq<ClassValue>)
    ensures Cn(a + b) == Cn(a) + (if Cn(a) != "" && Cn(b) != "" then " " else "") + Cn(b)
  {
    SurvivorsAppend(a, b);
    SurvivorsEmptyIff(a);
    SurvivorsEmptyIff(b);
    JoinAppend(Survivors(a), Survivors(b), " ");
  }

  /** A falsy argument anywhere leaves the result as if it were absent. */
  lemma CnDropsFalsy(a: seq<ClassValue>, v: ClassValue, b: seq<ClassValue>)
    requires !IsTruthy(v)
    ensures Cn(a + [v] + b) == Cn(a + b)
  {
    CnAppend(a + [v], b);
    CnAppend(a, [v]);
    CnSingle(v);
    assert Cn(a + [v]) == Cn(a);
    CnAppend(a, b);
  }

  /** Splitting the result at spaces gives back the surviving class names. */
  lemma CnSplitsIntoSurvivors(classes: seq<ClassValue>)
    requires Survivors(classes) != []
    requires forall k | 0 <= k < |Survivors(classes)| :: ' ' !in Survivors(classes)[k]
    ensures Split(Cn(classes), ' ') == Survivors(classes)
  {
    SplitJoin(Survivors(classes), ' ');
  }
}
