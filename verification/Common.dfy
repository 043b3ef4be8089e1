/** Definitions that several parts share. */
module Common {

  const TWO_32: nat := 0x1_0000_0000
  const TWO_63: int := 0x8000_0000_0000_0000
  const TWO_64: int := 0x1_0000_0000_0000_0000

  datatype Option<T> = None | Some(value: T)

  function Sum(s: seq<nat>): (n: nat) {
    if s == [] then 0 else Sum(s[..|s| - 1]) + s[|s| - 1]
  }

  ghost predicate Distinct<T>(s: seq<T>) {
    forall i, j :: 0 <= i < j < |s| ==> s[i] != s[j]
  }

  /** TAILQ_REMOVE: without the first `x`. */
  function RemoveFirst<T(==)>(s: seq<T>, x: T): (r: seq<T>) {
    if s == [] then [] else if s[0] == x then s[1..] else [s[0]] + RemoveFirst(s[1..], x)
  }

  lemma {:induction false} RemoveFirstIn<T>(s: seq<T>, x: T)
    ensures forall y :: y in RemoveFirst(s, x) ==> y in s
  {
    if s != [] && s[0] != x {
      RemoveFirstIn(s[1..], x);
    }
  }

  lemma DistinctCons<T>(x: T, s: seq<T>)
    requires Distinct(s) && x !in s
    ensures Distinct([x] + s)
  {
  }

  lemma {:induction false} RemoveFirstMembers<T>(s: seq<T>, x: T)
    requires Distinct(s)
    ensures var r := RemoveFirst(s, x);
            && Distinct(r) && (forall y :: y in r <==> y in s && y != x) && (x !in s ==> r == s)
            && (x in s ==> |r| == |s| - 1)
  {
    if s != [] {
      var rest := s[1..];
      assert s == [s[0]] + rest && Distinct(rest);
      assert s[0] !in rest;
      if s[0] != x {
        RemoveFirstMembers(rest, x);
        DistinctCons(s[0], RemoveFirst(rest, x));
      }
    }
  }
}
