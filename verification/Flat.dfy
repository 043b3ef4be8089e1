/** Byte values and the flattening of a list of byte runs into one sequence.

    A chunked buffer stands for the concatenation of its runs; the lemmas here are what
    lets an operation on single chunks be read as an operation on the whole sequence. */
module Flat {

  type byte = x: int | 0 <= x < 256

  /** memchr: the first index with byte `c`, or the length. */
  function IndexOf(s: seq<byte>, c: byte): (i: nat)
    ensures i <= |s| && (i < |s| ==> s[i] == c) && forall j :: 0 <= j < i ==> s[j] != c
  {
    if s == [] || s[0] == c then 0 else 1 + IndexOf(s[1..], c)
  }

  ghost function Flatten<T>(parts: seq<seq<T>>): (flat: seq<T>) {
    if parts == [] then [] else parts[0] + Flatten(parts[1..])
  }

  lemma {:induction false} FlattenAppend<T>(a: seq<seq<T>>, b: seq<seq<T>>)
    ensures Flatten(a + b) == Flatten(a) + Flatten(b)
  {
    if a == [] {
      assert a + b == b;
    } else {
      assert (a + b)[0] == a[0] && (a + b)[1..] == a[1..] + b;
      FlattenAppend(a[1..], b);
    }
  }

  lemma FlattenOne<T>(x: seq<T>)
    ensures Flatten([x]) == x
  {
    assert [x][1..] == [];
    assert Flatten<T>([]) == [];
  }

  lemma {:induction false} FlattenEmpty<T>(parts: seq<seq<T>>)
    requires forall i :: 0 <= i < |parts| ==> parts[i] == []
    ensures Flatten(parts) == []
  {
    if parts != [] {
      FlattenEmpty(parts[1..]);
    }
  }

  /** Splits the flat sequence around one run. */
  lemma FlattenSplit<T>(parts: seq<seq<T>>, i: nat)
    requires i < |parts|
    ensures Flatten(parts) == Flatten(parts[..i]) + parts[i] + Flatten(parts[i + 1..])
    ensures Flatten(parts[..i + 1]) == Flatten(parts[..i]) + parts[i]
  {
    hide Flatten;
    FlattenAppend(parts[..i], [parts[i]]);
    FlattenOne(parts[i]);
    TailStep(parts, i);
    FlattenAppend(parts[..i + 1], parts[i + 1..]);
    CutSeq(parts, i + 1);
  }

  lemma FlattenCut<T>(parts: seq<seq<T>>, i: nat)
    requires i <= |parts|
    ensures Flatten(parts) == Flatten(parts[..i]) + Flatten(parts[i..])
  {
    hide Flatten;
    CutSeq(parts, i);
    FlattenAppend(parts[..i], parts[i..]);
  }

  lemma CutSeq<T>(s: seq<T>, i: nat)
    requires i <= |s|
    ensures s[..i] + s[i..] == s
  {
  }

  /** Dropping a prefix that ends inside the runs from `k` on. */
  lemma FlattenDrop<T>(parts: seq<seq<T>>, k: nat, r: nat)
    requires k <= |parts| && r <= |Flatten(parts[k..])|
    ensures |Flatten(parts[..k])| + r <= |Flatten(parts)|
    ensures Flatten(parts)[|Flatten(parts[..k])| + r..] == Flatten(parts[k..])[r..]
  {
    FlattenCut(parts, k);
  }

  /** The runs before `k` and the first bytes of run `k`. */
  lemma FlattenTake<T>(parts: seq<seq<T>>, k: nat, left: nat)
    requires k < |parts| && left <= |parts[k]|
    ensures |Flatten(parts[..k])| + left <= |Flatten(parts)|
    ensures Flatten(parts)[..|Flatten(parts[..k])| + left] == Flatten(parts[..k]) + parts[k][..left]
  {
    FlattenSplit(parts, k);
  }

  lemma SubSeq<T>(s: seq<T>, a: nat, b: nat, i: nat, j: nat)
    requires a <= b <= |s| && i <= j <= b - a
    ensures s[a..b][i..j] == s[a + i..a + j]
  {
    var t := s[a..b];
    assert |t[i..j]| == |s[a + i..a + j]|;
    forall x | 0 <= x < j - i ensures t[i..j][x] == s[a + i..a + j][x] {
      assert t[i + x] == s[a + (i + x)];
    }
  }

  lemma JoinSeq<T>(s: seq<T>, a: nat, b: nat, c: nat)
    requires a <= b <= c <= |s|
    ensures s[a..b] + s[b..c] == s[a..c]
  {
  }

  lemma Empties<T>(s: seq<T>)
    ensures s[0..] == s && s[..0] == [] && s[..|s|] == s && s[|s|..] == []
  {
  }

  lemma TailStep<T>(s: seq<T>, k: nat)
    requires k < |s|
    ensures s[k] in s && s[k..][0] == s[k] && s[k..][1..] == s[k + 1..] && s[..k + 1] == s[..k] + [s[k]]
  {
  }

  lemma WholeList<T>(s: seq<T>, n: nat)
    requires n == |s|
    ensures s[..n] == s
  {
  }

  lemma NextBytes(front: seq<byte>, data: seq<byte>, done: nat, len: nat)
    requires done + len <= |data|
    ensures front + data[..done] + data[done..done + len] == front + data[..done + len]
  {
    assert data[..done + len] == data[..done] + data[done..done + len];
  }

  lemma NothingYet(front: seq<byte>, data: seq<byte>)
    ensures front + data[..0] == front
  {
  }
}
