/** Small types shared by every module. */
module Common {

  /** A value that may be absent: the source's `undefined`. */
  datatype Option<+T> = None | Some(value: T)

  /** A returned value, or the error the source throws instead. */
  datatype Result<+T, +E> = Ok(value: T) | Err(error: E)

  /** One octet of a Node `Buffer`. */
  type byte = x: int | 0 <= x < 256

  type bytes = seq<byte>

  /** The concatenation of a list of buffers (`Buffer.concat`). */
  function Flatten<T>(chunks: seq<seq<T>>): seq<T> {
    if chunks == [] then [] else chunks[0] + Flatten(chunks[1..])
  }

  lemma AppendAssoc<T>(a: seq<T>, b: seq<T>, c: seq<T>)
    ensures (a + b) + c == a + (b + c)
  {
  }

  lemma {:induction false} FlattenAppend<T>(a: seq<seq<T>>, b: seq<seq<T>>)
    ensures Flatten(a + b) == Flatten(a) + Flatten(b)
  {
    if a == [] {
      assert a + b == b;
    } else {
      FlattenAppend(a[1..], b);
      assert (a + b)[0] == a[0] && (a + b)[1..] == a[1..] + b;
      AppendAssoc(a[0], Flatten(a[1..]), Flatten(b));
    }
  }

  lemma FlattenSnoc<T>(a: seq<seq<T>>, x: seq<T>)
    ensures Flatten(a + [x]) == Flatten(a) + x
  {
    FlattenAppend(a, [x]);
    assert Flatten([x]) == x + Flatten([x][1..]);
  }

  /** No element occurs twice. */
  predicate Distinct<T(==)>(s: seq<T>) {
    forall i, j :: 0 <= i < j < |s| ==> s[i] != s[j]
  }

  lemma DistinctAppend<T>(a: seq<T>, b: seq<T>)
    requires Distinct(a) && Distinct(b) && forall o :: o in b ==> o !in a
    ensures Distinct(a + b)
  {
    forall i, j | 0 <= i < j < |a + b| ensures (a + b)[i] != (a + b)[j] {
      if i < |a| <= j {
        assert b[j - |a|] in b && a[i] in a;
      }
    }
  }

  lemma DistinctParts<T>(a: seq<T>, b: seq<T>)
    requires Distinct(a + b)
    ensures Distinct(b) && forall o :: o in b ==> o !in a
  {
    forall i, j | 0 <= i < j < |b| ensures b[i] != b[j] {
      assert (a + b)[|a| + i] == b[i] && (a + b)[|a| + j] == b[j];
    }
    forall o | o in b ensures o !in a {
      var j :| 0 <= j < |b| && b[j] == o;
      assert (a + b)[|a| + j] == o;
      assert forall i :: 0 <= i < |a| ==> (a + b)[i] == a[i];
    }
  }

  function ToSet<T>(s: seq<T>): set<T> {
    set x | x in s
  }

  /** Pigeonhole: a list without repetitions is as long as its set of elements. */
  lemma {:induction false} DistinctSize<T>(s: seq<T>)
    requires Distinct(s)
    ensures |ToSet(s)| == |s|
  {
    if s != [] {
      DistinctSize(s[1..]);
      assert ToSet(s) == {s[0]} + ToSet(s[1..]);
      assert s[0] !in s[1..];
    }
  }

  /** A list without repetitions drawn from a finite set is no longer than the set. */
  lemma DistinctWithin<T>(s: seq<T>, universe: set<T>)
    requires Distinct(s)
    requires forall x :: x in s ==> x in universe
    ensures |s| <= |universe|
  {
    DistinctSize(s);
    SubsetSize(ToSet(s), universe);
  }

  lemma SubsetSize<T>(a: set<T>, b: set<T>)
    requires a <= b
    ensures |a| <= |b|
  {
    assert b == a + (b - a);
  }

  /** A list is made of these places of another. */
  ghost predicate Picks<T>(tags: seq<T>, at: seq<nat>, r: seq<T>) {
    |r| == |at| && forall i :: 0 <= i < |at| ==> at[i] < |tags| && r[i] == tags[at[i]]
  }

  ghost predicate Rising(at: seq<nat>) {
    forall i, j :: 0 <= i < j < |at| ==> at[i] < at[j]
  }

  /** Places one further on. */
  function Later(at: seq<nat>): (r: seq<nat>)
    ensures |r| == |at| && forall i :: 0 <= i < |at| ==> r[i] == at[i] + 1
  {
    seq(|at|, i requires 0 <= i < |at| => at[i] + 1)
  }

  lemma OneEarlier<T>(tags: seq<T>, at: seq<nat>, r: seq<T>, here: bool) returns (all: seq<nat>)
    requires tags != [] && Picks(tags[1..], at, r) && Rising(at)
    ensures Picks(tags, all, (if here then [tags[0]] else []) + r) && Rising(all)
    ensures forall k: nat :: k < |tags| ==> (k in all <==> if k == 0 then here else k - 1 in at)
  {
    var head: seq<nat>, later := if here then [0] else [], Later(at);
    all := head + later;
    PicksAppend(tags, head, if here then [tags[0]] else [], later, r);
    forall k: nat | k < |tags| ensures k in all <==> if k == 0 then here else k - 1 in at {
      LaterHas(at, k);
    }
  }

  lemma LaterHas(at: seq<nat>, k: nat)
    ensures k in Later(at) <==> k > 0 && k - 1 in at
  {
    if k > 0 && k - 1 in at {
      var i :| 0 <= i < |at| && at[i] == k - 1;
      assert Later(at)[i] == k;
    }
    if k in Later(at) {
      var i :| 0 <= i < |at| && Later(at)[i] == k;
      assert at[i] == k - 1;
    }
  }

  lemma PicksAppend<T>(tags: seq<T>, a: seq<nat>, r: seq<T>, b: seq<nat>, s: seq<T>)
    requires Picks(tags, a, r) && Picks(tags, b, s)
    ensures Picks(tags, a + b, r + s)
  {
  }
}
