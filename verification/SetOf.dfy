/**
 SET OF in DER: elements strictly ordered by their encodings, compared octet by
 octet (section 11.6 of ITU-T X.690). A set is kept as its ordered sequence, as
 `SetOfVec` keeps it; an element equal to one already there is refused.
 */
module SetOf {
  import opened Wrappers

  /** Octet-wise comparison; a proper prefix comes first. */
  predicate Below(a: bytes, b: bytes) {
    b != [] && (a == [] || a[0] < b[0] || (a[0] == b[0] && Below(a[1..], b[1..])))
  }

  /** The first octet that differs decides, and an end before any octet. */
  ghost predicate FirstDifference(a: bytes, b: bytes, k: nat) {
    k <= |a| && k < |b| && a[..k] == b[..k] && (k == |a| || a[k] < b[k])
  }

  lemma {:induction false} BelowExactly(a: bytes, b: bytes)
    ensures Below(a, b) <==> exists k: nat :: FirstDifference(a, b, k)
  {
    if a == [] || b == [] || a[0] != b[0] {
      if Below(a, b) { assert FirstDifference(a, b, 0); }
      if k: nat :| FirstDifference(a, b, k) && k > 0 { assert a[..k][0] == b[..k][0]; }
    } else {
      BelowExactly(a[1..], b[1..]);
      if Below(a, b) {
        var k: nat :| FirstDifference(a[1..], b[1..], k);
        assert a[..k + 1] == [a[0]] + a[1..][..k] && b[..k + 1] == [b[0]] + b[1..][..k];
        assert FirstDifference(a, b, k + 1);
      }
      if k: nat :| FirstDifference(a, b, k) {
        assert a[1..][..k - 1] == a[..k][1..] && b[1..][..k - 1] == b[..k][1..];
        assert FirstDifference(a[1..], b[1..], k - 1);
      }
    }
  }

  ghost predicate Ordered<T>(s: seq<T>, key: T -> bytes) {
    forall i, j :: 0 <= i < j < |s| ==> Below(key(s[i]), key(s[j]))
  }

  /** `SetOfVec::insert`. */
  function Insert<T>(s: seq<T>, x: T, key: T -> bytes): (r: Option<seq<T>>) {
    if s == [] || Below(key(x), key(s[0])) then Some([x] + s)
    else if key(x) == key(s[0]) then None
    else
      var tail :- Insert(s[1..], x, key);
      Some([s[0]] + tail)
  }

  /** Inserts the elements one after another. */
  function FromSeq<T>(xs: seq<T>, key: T -> bytes): Option<seq<T>> {
    if xs == [] then Some([])
    else
      var s :- FromSeq(xs[..|xs| - 1], key);
      Insert(s, xs[|xs| - 1], key)
  }

  // ----- the order -----

  lemma {:induction false} BelowIrreflexive(a: bytes)
    ensures !Below(a, a)
  {
    if a != [] {
      BelowIrreflexive(a[1..]);
    }
  }

  lemma {:induction false} BelowTransitive(a: bytes, b: bytes, c: bytes)
    requires Below(a, b) && Below(b, c)
    ensures Below(a, c)
  {
    if a != [] && a[0] == b[0] == c[0] {
      BelowTransitive(a[1..], b[1..], c[1..]);
    }
  }

  lemma {:induction false} BelowTotal(a: bytes, b: bytes)
    ensures a == b || Below(a, b) || Below(b, a)
  {
    if a != [] && b != [] && a[0] == b[0] {
      BelowTotal(a[1..], b[1..]);
      if a[1..] == b[1..] {
        assert a == [a[0]] + a[1..] && b == [b[0]] + b[1..];
      }
    }
  }

  // ----- insertion -----

  /** Insertion keeps the order and adds exactly the new element. */
  lemma {:induction false} InsertOrdered<T>(s: seq<T>, x: T, key: T -> bytes)
    requires Ordered(s, key)
    ensures Insert(s, x, key).Some? ==>
      Ordered(Insert(s, x, key).value, key)
      && multiset(Insert(s, x, key).value) == multiset(s) + multiset{x}
  {
    if s == [] {
    } else if Below(key(x), key(s[0])) {
      forall j | 0 <= j < |s| ensures Below(key(x), key(s[j])) {
        if j > 0 { BelowTransitive(key(x), key(s[0]), key(s[j])); }
      }
    } else if key(x) != key(s[0]) && Insert(s[1..], x, key).Some? {
      var tail := Insert(s[1..], x, key).value;
      InsertOrdered(s[1..], x, key);
      BelowTotal(key(x), key(s[0]));
      assert s == [s[0]] + s[1..];
      forall j | 0 <= j < |tail| ensures Below(key(s[0]), key(tail[j])) {
        assert tail[j] in multiset(tail);
        assert tail[j] == x || tail[j] in s[1..];
      }
    }
  }

  /** Insertion is refused exactly when an element with the same encoding is present. */
  lemma {:induction false} InsertRefused<T>(s: seq<T>, x: T, key: T -> bytes)
    requires Ordered(s, key)
    ensures Insert(s, x, key).None? <==> exists i :: 0 <= i < |s| && key(s[i]) == key(x)
  {
    if s == [] {
    } else if Below(key(x), key(s[0])) {
      BelowIrreflexive(key(x));
      forall j | 0 <= j < |s| ensures key(s[j]) != key(x) {
        if j > 0 { BelowTransitive(key(x), key(s[0]), key(s[j])); }
      }
    } else if key(x) != key(s[0]) {
      InsertRefused(s[1..], x, key);
      assert forall i :: 1 <= i < |s| ==> s[i] == s[1..][i - 1];
    }
  }

  /** Building a set orders the elements, keeps each once, and fails exactly on a repeated encoding. */
  lemma {:induction false} FromSeqOrdered<T>(xs: seq<T>, key: T -> bytes)
    ensures FromSeq(xs, key).Some? ==>
      Ordered(FromSeq(xs, key).value, key) && multiset(FromSeq(xs, key).value) == multiset(xs)
    ensures FromSeq(xs, key).Some? <==>
      forall i, j :: 0 <= i < j < |xs| ==> key(xs[i]) != key(xs[j])
  {
    if xs != [] {
      var init, last := xs[..|xs| - 1], xs[|xs| - 1];
      assert xs == init + [last];
      FromSeqOrdered(init, key);
      if FromSeq(init, key).Some? {
        var s := FromSeq(init, key).value;
        InsertOrdered(s, last, key);
        InsertRefused(s, last, key);
        forall y ensures y in s <==> y in init {
          assert y in multiset(s) <==> y in multiset(init);
        }
        if Insert(s, last, key).None? {
          var i :| 0 <= i < |s| && key(s[i]) == key(last);
          assert s[i] in init;
          var k :| 0 <= k < |init| && init[k] == s[i];
          assert key(xs[k]) == key(xs[|xs| - 1]);
        } else {
          forall i, j | 0 <= i < j < |xs| ensures key(xs[i]) != key(xs[j]) {
            if j == |xs| - 1 { assert init[i] in s; } else { assert init[i] == xs[i] && init[j] == xs[j]; }
          }
        }
      } else {
        var i, j :| 0 <= i < j < |init| && key(init[i]) == key(init[j]);
        assert key(xs[i]) == key(xs[j]);
      }
    }
  }

  // ----- canonical form -----

  lemma SameLeast<T>(s: seq<T>, t: seq<T>, key: T -> bytes)
    requires Ordered(s, key) && Ordered(t, key)
    requires multiset(s) == multiset(t) && s != []
    ensures t != [] && s[0] == t[0]
  {
    assert s[0] in multiset(t);
    assert t[0] in multiset(s);
    var i :| 0 <= i < |t| && t[i] == s[0];
    var j :| 0 <= j < |s| && s[j] == t[0];
    if i > 0 && j > 0 {
      BelowTransitive(key(s[0]), key(t[0]), key(s[0]));
      BelowIrreflexive(key(s[0]));
    }
  }

  /** An ordered sequence is determined by its elements. */
  lemma {:induction false} OrderedUnique<T>(s: seq<T>, t: seq<T>, key: T -> bytes)
    requires Ordered(s, key) && Ordered(t, key)
    requires multiset(s) == multiset(t)
    ensures s == t
  {
    if s == [] {
      assert |multiset(t)| == 0;
    } else {
      SameLeast(s, t, key);
      assert s == [s[0]] + s[1..] && t == [t[0]] + t[1..];
      assert multiset(s[1..]) == multiset(s) - multiset{s[0]};
      assert multiset(t[1..]) == multiset(t) - multiset{t[0]};
      OrderedUnique(s[1..], t[1..], key);
    }
  }

  lemma RemoveAt<T>(s: seq<T>, i: nat)
    requires i < |s|
    ensures multiset(s[..i] + s[i + 1..]) == multiset(s) - multiset{s[i]}
  {
    assert s == s[..i] + [s[i]] + s[i + 1..];
  }

  /** Two positions of one sequence have two counterparts in a permutation of it. */
  lemma TwoOccurrences<T>(xs: seq<T>, ys: seq<T>, i: nat, j: nat) returns (k: nat, l: nat)
    requires multiset(xs) == multiset(ys)
    requires i < j < |ys|
    ensures k < |xs| && l < |xs| && k != l && xs[k] == ys[i] && xs[l] == ys[j]
  {
    assert ys[i] in multiset(xs);
    k :| 0 <= k < |xs| && xs[k] == ys[i];
    var rest, others := xs[..k] + xs[k + 1..], ys[..i] + ys[i + 1..];
    RemoveAt(xs, k);
    RemoveAt(ys, i);
    assert others[j - 1] == ys[j];
    assert ys[j] in multiset(rest);
    l :| 0 <= l < |rest| && rest[l] == ys[j];
    l := if l < k then l else l + 1;
  }

  lemma AcceptedTogether<T>(xs: seq<T>, ys: seq<T>, key: T -> bytes)
    requires multiset(xs) == multiset(ys)
    requires FromSeq(xs, key).Some?
    ensures FromSeq(ys, key).Some?
  {
    FromSeqOrdered(xs, key);
    FromSeqOrdered(ys, key);
    forall i, j | 0 <= i < j < |ys| ensures key(ys[i]) != key(ys[j]) {
      var k, l := TwoOccurrences(xs, ys, i, j);
    }
  }

  /** Neither the set nor a refusal depends on the order of insertion. */
  lemma InsertionOrderIrrelevant<T>(xs: seq<T>, ys: seq<T>, key: T -> bytes)
    requires multiset(xs) == multiset(ys)
    ensures FromSeq(xs, key) == FromSeq(ys, key)
  {
    if FromSeq(xs, key).Some? {
      AcceptedTogether(xs, ys, key);
      FromSeqOrdered(xs, key);
      FromSeqOrdered(ys, key);
      OrderedUnique(FromSeq(xs, key).value, FromSeq(ys, key).value, key);
    } else if FromSeq(ys, key).Some? {
      AcceptedTogether(ys, xs, key);
    }
  }

  /** Re-inserting an ordered sequence gives it back: re-encoding a decoded set changes nothing. */
  lemma OrderedFixed<T>(s: seq<T>, key: T -> bytes)
    requires Ordered(s, key)
    ensures FromSeq(s, key) == Some(s)
  {
    forall i, j | 0 <= i < j < |s| ensures key(s[i]) != key(s[j]) {
      BelowIrreflexive(key(s[i]));
    }
    FromSeqOrdered(s, key);
    OrderedUnique(FromSeq(s, key).value, s, key);
  }
}
