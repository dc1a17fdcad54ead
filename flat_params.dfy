/**
 * The flattened parameter hash that `format_custom_params` formats, and the
 * `sort` it applies. A Ruby Hash keeps its keys unique and remembers the
 * order they were inserted in, so it is a sequence of key/value pairs with
 * distinct keys here.
 */
module FlatParams {

  /** A leaf of the flattened parameter tree: a string, or an array of strings. */
  datatype ParamValue = Scalar(text: string) | List(items: seq<string>)

  type Pair = (string, ParamValue)

  predicate DistinctKeys(ps: seq<Pair>) {
    forall i, j :: 0 <= i < j < |ps| ==> ps[i].0 != ps[j].0
  }

  /** The result of flattening a parameter tree: an insertion-ordered hash. */
  type FlatHash = ps: seq<Pair> | DistinctKeys(ps) witness []

  /**
   * Ruby's `String#<=>` on UTF-8 strings: the bytes are compared in order and
   * a proper prefix comes first. UTF-8 keeps the order of code points, so
   * comparing characters by code point gives the same order.
   */
  predicate Less(a: string, b: string) {
    b != [] && (a == [] || a[0] < b[0] || (a[0] == b[0] && Less(a[1..], b[1..])))
  }

  lemma {:induction false} LessIrreflexive(a: string)
    ensures !Less(a, a)
  {
    if a != [] {
      LessIrreflexive(a[1..]);
    }
  }

  lemma {:induction false} LessAsymmetric(a: string, b: string)
    requires Less(a, b)
    ensures !Less(b, a)
  {
    if a != [] && a[0] == b[0] {
      LessAsymmetric(a[1..], b[1..]);
    }
  }

  lemma {:induction false} LessTransitive(a: string, b: string, c: string)
    requires Less(a, b) && Less(b, c)
    ensures Less(a, c)
  {
    if a != [] && a[0] == b[0] && b[0] == c[0] {
      LessTransitive(a[1..], b[1..], c[1..]);
    }
  }

  lemma {:induction false} LessTotal(a: string, b: string)
    requires a != b
    ensures Less(a, b) || Less(b, a)
  {
    if a != [] && b != [] && a[0] == b[0] {
      assert a == [a[0]] + a[1..] && b == [b[0]] + b[1..];
      LessTotal(a[1..], b[1..]);
    }
  }

  /** Keys strictly ascending in byte order. */
  predicate SortedByKey(ps: seq<Pair>) {
    forall i, j :: 0 <= i < j < |ps| ==> Less(ps[i].0, ps[j].0)
  }

  predicate KeyAbsent(k: string, ps: seq<Pair>) {
    forall q :: q in ps ==> q.0 != k
  }

  function Insert(p: Pair, ps: seq<Pair>): (r: seq<Pair>)
    ensures multiset(r) == multiset(ps) + multiset{p}
    ensures SortedByKey(ps) && KeyAbsent(p.0, ps) ==> SortedByKey(r)
  {
    if ps == [] then [p]
    else if Less(p.0, ps[0].0) then
      InsertFront(p, ps);
      [p] + ps
    else
      var tail := Insert(p, ps[1..]);
      InsertBehind(p, ps, tail);
      [ps[0]] + tail
  }

  lemma InsertFront(p: Pair, ps: seq<Pair>)
    requires ps != [] && Less(p.0, ps[0].0)
    ensures multiset([p] + ps) == multiset(ps) + multiset{p}
    ensures SortedByKey(ps) ==> SortedByKey([p] + ps)
  {
    var r := [p] + ps;
    if SortedByKey(ps) {
      forall i, j | 0 <= i < j < |r| ensures Less(r[i].0, r[j].0) {
        if i == 0 && j > 1 {
          LessTransitive(p.0, ps[0].0, ps[j - 1].0);
        } else if i > 0 {
          assert r[i] == ps[i - 1] && r[j] == ps[j - 1];
        }
      }
    }
  }

  lemma InsertBehind(p: Pair, ps: seq<Pair>, tail: seq<Pair>)
    requires ps != [] && !Less(p.0, ps[0].0)
    requires multiset(tail) == multiset(ps[1..]) + multiset{p}
    requires SortedByKey(ps[1..]) && KeyAbsent(p.0, ps[1..]) ==> SortedByKey(tail)
    ensures multiset([ps[0]] + tail) == multiset(ps) + multiset{p}
    ensures SortedByKey(ps) && KeyAbsent(p.0, ps) ==> SortedByKey([ps[0]] + tail)
  {
    assert ps == [ps[0]] + ps[1..];
    var r := [ps[0]] + tail;
    if SortedByKey(ps) && KeyAbsent(p.0, ps) {
      assert SortedByKey(ps[1..]);
      LessTotal(p.0, ps[0].0);
      forall i, j | 0 <= i < j < |r| ensures Less(r[i].0, r[j].0) {
        if i == 0 {
          assert r[j] in multiset(tail);
          assert r[j] == p || r[j] in ps[1..];
        } else {
          assert r[i] == tail[i - 1] && r[j] == tail[j - 1];
        }
      }
    }
  }

  /** The hash's pairs in ascending key order: what `sort` leaves when the keys are distinct. */
  function SortByKey(ps: seq<Pair>): (r: seq<Pair>)
    ensures multiset(r) == multiset(ps)
    ensures DistinctKeys(ps) ==> SortedByKey(r)
  {
    if ps == [] then []
    else
      var rest := SortByKey(ps[1..]);
      assert ps == [ps[0]] + ps[1..];
      assert DistinctKeys(ps) ==> KeyAbsent(ps[0].0, rest) by {
        if DistinctKeys(ps) {
          forall q | q in rest ensures q.0 != ps[0].0 {
            assert q in multiset(ps[1..]);
          }
        }
      }
      Insert(ps[0], rest)
  }

  /** Two pairs sort into key order whichever order they are given in. */
  lemma SortTwo(a: Pair, b: Pair)
    requires Less(a.0, b.0)
    ensures DistinctKeys([a, b]) && DistinctKeys([b, a])
    ensures SortByKey([a, b]) == [a, b] && SortByKey([b, a]) == [a, b]
  {
    LessIrreflexive(a.0);
    LessAsymmetric(a.0, b.0);
    assert [b, a][1..] == [a] && [a, b][1..] == [b];
    assert SortByKey([a]) == [a] && SortByKey([b]) == [b];
  }

  /** Two key-sorted sequences holding the same pairs are equal: the sorted order is unique. */
  lemma {:induction false} SortedUnique(a: seq<Pair>, b: seq<Pair>)
    requires SortedByKey(a) && SortedByKey(b)
    requires multiset(a) == multiset(b)
    ensures a == b
  {
    if a != [] {
      assert |b| == |multiset(b)| == |multiset(a)| == |a|;
      SortedSameHead(a, b);
      SameTail(a, b);
      assert SortedByKey(a[1..]) && SortedByKey(b[1..]);
      SortedUnique(a[1..], b[1..]);
      assert a == [a[0]] + a[1..] && b == [b[0]] + b[1..];
    }
  }

  lemma SortedSameHead(a: seq<Pair>, b: seq<Pair>)
    requires a != [] && b != []
    requires SortedByKey(a) && SortedByKey(b)
    requires multiset(a) == multiset(b)
    ensures a[0] == b[0]
  {
    assert a[0] in multiset(b) && b[0] in multiset(a);
    if a[0] != b[0] {
      var k :| 0 <= k < |b| && b[k] == a[0];
      var j :| 0 <= j < |a| && a[j] == b[0];
      assert Less(b[0].0, a[0].0);
      LessAsymmetric(b[0].0, a[0].0);
      assert false;
    }
  }

  lemma SameTail(a: seq<Pair>, b: seq<Pair>)
    requires a != [] && b != [] && a[0] == b[0]
    requires multiset(a) == multiset(b)
    ensures multiset(a[1..]) == multiset(b[1..])
  {
    assert a == [a[0]] + a[1..] && b == [b[0]] + b[1..];
    assert multiset(a[1..]) == multiset(a) - multiset{a[0]};
    assert multiset(b[1..]) == multiset(b) - multiset{b[0]};
  }

  /** Sorting forgets the insertion order: two hashes with the same pairs sort alike. */
  lemma {:induction false} SortByKeyOrderIndependent(a: FlatHash, b: FlatHash)
    requires multiset(a) == multiset(b)
    ensures SortByKey(a) == SortByKey(b)
  {
    SortedUnique(SortByKey(a), SortByKey(b));
  }
}
