/**
 The order in which a sorted map walks its byte-string keys: lexicographic, least first.
 */
module ByteOrder {
  import opened Bytes

  predicate LexLe(a: seq<byte>, b: seq<byte>) {
    if a == [] then true
    else if b == [] then false
    else a[0] < b[0] || (a[0] == b[0] && LexLe(a[1..], b[1..]))
  }

  lemma {:induction false} LexTotal(a: seq<byte>, b: seq<byte>)
    ensures LexLe(a, b) || LexLe(b, a)
    decreases |a|
  {
    if a != [] && b != [] && a[0] == b[0] {
      LexTotal(a[1..], b[1..]);
    }
  }

  lemma {:induction false} LexAntisymmetric(a: seq<byte>, b: seq<byte>)
    requires LexLe(a, b) && LexLe(b, a)
    ensures a == b
    decreases |a|
  {
    if a != [] && b != [] {
      LexAntisymmetric(a[1..], b[1..]);
      assert a == [a[0]] + a[1..] && b == [b[0]] + b[1..];
    }
  }

  lemma {:induction false} LexTransitive(a: seq<byte>, b: seq<byte>, c: seq<byte>)
    requires LexLe(a, b) && LexLe(b, c)
    ensures LexLe(a, c)
    decreases |a|
  {
    if a != [] && a[0] == c[0] {
      LexTransitive(a[1..], b[1..], c[1..]);
    }
  }

  predicate IsLeast(k: seq<byte>, s: set<seq<byte>>) {
    k in s && forall x :: x in s ==> LexLe(k, x)
  }

  lemma {:induction false} LeastExists(s: set<seq<byte>>)
    requires s != {}
    ensures exists k :: IsLeast(k, s)
    decreases |s|
  {
    var k :| k in s;
    LexTotal(k, k);
    var rest := s - {k};
    if rest == {} {
      assert s == {k};
      assert IsLeast(k, s);
    } else {
      LeastExists(rest);
      var m :| IsLeast(m, rest);
      LexTotal(k, m);
      var least := if LexLe(k, m) then k else m;
      forall x | x in s
        ensures LexLe(least, x)
      {
        if x != k && LexLe(k, m) {
          LexTransitive(k, m, x);
        }
      }
      assert IsLeast(least, s);
    }
  }

  lemma LeastIsUnique(j: seq<byte>, k: seq<byte>, s: set<seq<byte>>)
    requires IsLeast(j, s) && IsLeast(k, s)
    ensures j == k
  {
    LexAntisymmetric(j, k);
  }

  ghost function Least(s: set<seq<byte>>): (k: seq<byte>)
    requires s != {}
    ensures IsLeast(k, s)
  {
    LeastExists(s);
    var k :| IsLeast(k, s);
    k
  }

  ghost function SortedKeys(s: set<seq<byte>>): (keys: seq<seq<byte>>)
    ensures |keys| == |s|
    ensures forall k :: k in keys <==> k in s
    decreases |s|
  {
    if s == {} then [] else [Least(s)] + SortedKeys(s - {Least(s)})
  }

  // The walk takes the least key and goes on with the rest.
  lemma SortedKeysStep(k: seq<byte>, s: set<seq<byte>>)
    requires IsLeast(k, s)
    ensures SortedKeys(s) == [k] + SortedKeys(s - {k})
  {
    LeastIsUnique(k, Least(s), s);
  }

  lemma {:induction false} SortedKeysDistinct(s: set<seq<byte>>, i: nat, j: nat)
    requires i < j < |s|
    ensures SortedKeys(s)[i] != SortedKeys(s)[j]
    decreases |s|
  {
    SortedKeysStep(Least(s), s);
    hide SortedKeys, IsLeast;
    var rest := s - {Least(s)};
    if i == 0 {
      assert SortedKeys(rest)[j - 1] in rest;
    } else {
      SortedKeysDistinct(rest, i - 1, j - 1);
    }
  }

  lemma {:induction false} SortedKeysAscend(s: set<seq<byte>>, i: nat, j: nat)
    requires i < j < |s|
    ensures LexLe(SortedKeys(s)[i], SortedKeys(s)[j])
    decreases |s|
  {
    SortedKeysStep(Least(s), s);
    hide SortedKeys, LexLe;
    var rest := s - {Least(s)};
    if i == 0 {
      assert SortedKeys(s)[j] == SortedKeys(rest)[j - 1];
      assert SortedKeys(rest)[j - 1] in SortedKeys(rest);
    } else {
      SortedKeysAscend(rest, i - 1, j - 1);
    }
  }
}
