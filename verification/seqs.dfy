/** Sequence helpers shared by every stage: slicing in Python's sense, the
    set of indices a boolean mask selects, and cutting a sequence into
    consecutive pieces (the summariser's batches and the newsletter's
    110-character lines are both instances of `Chunks`). */
module Seqs {

  function Min(a: int, b: int): int { if a <= b then a else b }

  /** The set of elements of a sequence. */
  function Elems<T>(s: seq<T>): set<T> { set x | x in s }

  lemma ElemsEmpty<T>(s: seq<T>)
    ensures Elems(s) == {} <==> s == []
  {
    if s != [] {
      assert s[0] in Elems(s);
    }
  }

  /** The elements of a non-empty sequence: those before the last, and the last. */
  lemma ElemsLast<T>(s: seq<T>)
    requires |s| > 0
    ensures Elems(s) == Elems(s[..|s| - 1]) + {s[|s| - 1]}
  {
    assert s == s[..|s| - 1] + [s[|s| - 1]];
  }

  /** No element occurs twice. */
  predicate Distinct<T(==)>(s: seq<T>) {
    forall i, j :: 0 <= i < j < |s| ==> s[i] != s[j]
  }

  /** Two disjoint sequences without repetitions concatenate to one. */
  lemma DistinctAppend<T>(a: seq<T>, b: seq<T>)
    requires Distinct(a) && Distinct(b)
    requires forall x :: x in a ==> x !in b
    ensures Distinct(a + b)
  {
    forall i, j | 0 <= i < j < |a + b| ensures (a + b)[i] != (a + b)[j] {
      if i < |a| && j >= |a| {
        assert (a + b)[i] in a && (a + b)[j] == b[j - |a|];
      }
    }
  }

  /** Python's `s[:n]` for a non-negative `n`. */
  function Take<T>(s: seq<T>, n: nat): (r: seq<T>)
    ensures |r| == Min(n, |s|)
    ensures r <= s
  {
    s[..Min(n, |s|)]
  }

  /** A prefix grows by the next element. */
  lemma TakeSnoc<T>(s: seq<T>, k: nat)
    requires k < |s|
    ensures s[..k] + [s[k]] == s[..k + 1]
  {
  }

  /** The concatenation of a sequence of sequences. */
  function Flatten<T>(ss: seq<seq<T>>): seq<T> {
    if ss == [] then [] else ss[0] + Flatten(ss[1..])
  }

  /** Parts of at most `n` items each make at most `n` items per part. */
  lemma {:induction false} FlattenBound<T>(ss: seq<seq<T>>, n: nat)
    requires forall k :: 0 <= k < |ss| ==> |ss[k]| <= n
    ensures |Flatten(ss)| <= |ss| * n
  {
    if ss != [] {
      FlattenBound(ss[1..], n);
      MulPred(|ss|, n);
    }
  }

  lemma {:induction false} FlattenAppend<T>(a: seq<seq<T>>, b: seq<seq<T>>)
    ensures Flatten(a + b) == Flatten(a) + Flatten(b)
  {
    if a != [] {
      assert (a + b)[0] == a[0];
      assert (a + b)[1..] == a[1..] + b;
      FlattenAppend(a[1..], b);
    } else {
      assert a + b == b;
    }
  }

  /** Appending one more piece appends its elements. */
  lemma FlattenSnoc<T>(ss: seq<seq<T>>, x: seq<T>)
    ensures Flatten(ss + [x]) == Flatten(ss) + x
  {
    FlattenAppend(ss, [x]);
    assert Flatten([x]) == x + Flatten([x][1..]);
  }

  /** Element `j` of piece `k` sits after the elements of the pieces before
      it. */
  lemma FlattenAt<T>(ss: seq<seq<T>>, k: nat, j: nat)
    requires k < |ss| && j < |ss[k]|
    ensures |Flatten(ss[..k])| + j < |Flatten(ss)|
    ensures Flatten(ss)[|Flatten(ss[..k])| + j] == ss[k][j]
  {
    assert ss == ss[..k] + ss[k..];
    FlattenAppend(ss[..k], ss[k..]);
    assert ss[k..][0] == ss[k];
    assert Flatten(ss[k..]) == ss[k] + Flatten(ss[k..][1..]);
  }

  // ---------------------------------------------------------------------------
  // Masks

  /** The positions, in increasing order, of the elements `keep` accepts: what
      pandas' boolean indexing `df[mask]` keeps. */
  function IndicesWhere<T>(cells: seq<T>, keep: T -> bool): (r: seq<nat>)
    ensures forall i: nat :: i in r <==> i < |cells| && keep(cells[i])
    ensures forall j, k :: 0 <= j < k < |r| ==> r[j] < r[k]
    decreases |cells|
  {
    if cells == [] then []
    else
      var n := |cells| - 1;
      var prev := IndicesWhere(cells[..n], keep);
      forall j | 0 <= j < |prev| ensures prev[j] < n {
        assert prev[j] in prev;
      }
      prev + (if keep(cells[n]) then [n] else [])
  }

  /** A mask that keeps everything selects every position. */
  lemma {:induction false} IndicesWhereAll<T>(cells: seq<T>, keep: T -> bool)
    requires forall i :: 0 <= i < |cells| ==> keep(cells[i])
    ensures IndicesWhere(cells, keep) == seq(|cells|, i => i)
    decreases |cells|
  {
    if cells != [] {
      var n := |cells| - 1;
      IndicesWhereAll(cells[..n], keep);
      assert seq(n + 1, i => i) == seq(n, i => i) + [n];
    }
  }

  /** The elements at the given positions, in that order. */
  function Pick<T>(s: seq<T>, idx: seq<nat>): (r: seq<T>)
    requires forall j :: 0 <= j < |idx| ==> idx[j] < |s|
    ensures |r| == |idx|
    ensures forall j :: 0 <= j < |idx| ==> r[j] == s[idx[j]]
  {
    seq(|idx|, j requires 0 <= j < |idx| => s[idx[j]])
  }

  /** Python's list comprehension `[x for x in s if keep(x)]`. */
  function Filter<T(!new)>(s: seq<T>, keep: T -> bool): (r: seq<T>)
    ensures forall x :: x in r <==> x in s && keep(x)
    ensures multiset(r) <= multiset(s)
    decreases |s|
  {
    if s == [] then []
    else
      assert s == [s[0]] + s[1..];
      (if keep(s[0]) then [s[0]] else []) + Filter(s[1..], keep)
  }

  /** Filtering keeps distinct elements distinct. */
  lemma {:induction false} FilterDistinct<T(!new)>(s: seq<T>, keep: T -> bool)
    requires Distinct(s)
    ensures Distinct(Filter(s, keep))
    decreases |s|
  {
    if s != [] {
      assert Distinct(s[1..]) by {
        forall i, j | 0 <= i < j < |s[1..]| ensures s[1..][i] != s[1..][j] {
          assert s[1..][i] == s[i + 1] && s[1..][j] == s[j + 1];
        }
      }
      FilterDistinct(s[1..], keep);
      assert forall j :: 0 <= j < |s[1..]| ==> s[1..][j] != s[0];
    }
  }

  /** Filtering a concatenation filters each part. */
  lemma {:induction false} FilterAppend<T(!new)>(a: seq<T>, b: seq<T>, keep: T -> bool)
    ensures Filter(a + b, keep) == Filter(a, keep) + Filter(b, keep)
    decreases |a|
  {
    if a == [] {
      assert a + b == b;
    } else {
      assert (a + b)[0] == a[0];
      assert (a + b)[1..] == a[1..] + b;
      FilterAppend(a[1..], b, keep);
    }
  }

  /** Filtering a sequence grown by one element. */
  lemma FilterSnoc<T(!new)>(s: seq<T>, x: T, keep: T -> bool)
    ensures Filter(s + [x], keep) == Filter(s, keep) + (if keep(x) then [x] else [])
  {
    FilterAppend(s, [x], keep);
    assert [x][1..] == [];
  }

  /** A filter that keeps every element keeps the sequence. */
  lemma {:induction false} FilterAll<T(!new)>(s: seq<T>, keep: T -> bool)
    requires forall x :: x in s ==> keep(x)
    ensures Filter(s, keep) == s
    decreases |s|
  {
    if s != [] {
      forall x | x in s[1..] ensures keep(x) {
        assert x in s;
      }
      FilterAll(s[1..], keep);
      assert s == [s[0]] + s[1..] && keep(s[0]);
    }
  }

  /** A filter that keeps no element gives the empty sequence. */
  lemma FilterNone<T(!new)>(s: seq<T>, keep: T -> bool)
    requires forall x :: x in s ==> !keep(x)
    ensures Filter(s, keep) == []
  {
    if Filter(s, keep) != [] {
      assert Filter(s, keep)[0] in Filter(s, keep);
    }
  }

  /** In a sequence without repetitions every element occurs once. */
  lemma {:induction false} DistinctOnce<T>(s: seq<T>, x: T)
    requires Distinct(s)
    ensures multiset(s)[x] == if x in s then 1 else 0
    decreases |s|
  {
    if s != [] {
      assert s == [s[0]] + s[1..];
      assert Distinct(s[1..]) by {
        forall i, j | 0 <= i < j < |s[1..]| ensures s[1..][i] != s[1..][j] {
          assert s[1..][i] == s[i + 1] && s[1..][j] == s[j + 1];
        }
      }
      assert forall j :: 0 <= j < |s[1..]| ==> s[1..][j] != s[0];
      DistinctOnce(s[1..], x);
    }
  }

  /** Two sequences without repetitions holding the same elements are
      permutations of each other. */
  lemma DistinctSameElems<T>(a: seq<T>, b: seq<T>)
    requires Distinct(a) && Distinct(b)
    requires forall x :: x in a <==> x in b
    ensures multiset(a) == multiset(b)
  {
    forall x ensures multiset(a)[x] == multiset(b)[x] {
      DistinctOnce(a, x);
      DistinctOnce(b, x);
    }
  }

  // ---------------------------------------------------------------------------
  // Chunks

  /** Python's `[s[i:i + size] for i in range(0, len(s), size)]`: consecutive
      pieces of `size` elements, the last one possibly shorter. */
  function Chunks<T>(s: seq<T>, size: nat): seq<seq<T>>
    requires size > 0
    decreases |s|
  {
    if s == [] then []
    else if |s| <= size then [s]
    else [s[..size]] + Chunks(s[size..], size)
  }

  /** Unfolds `Chunks` once at an offset: the piece that starts at `i`, then
      the pieces of the rest. */
  lemma ChunksAt<T>(s: seq<T>, i: nat, size: nat)
    requires size > 0 && i < |s|
    ensures Chunks(s[i..], size) == [s[i..Min(i + size, |s|)]] + Chunks(s[Min(i + size, |s|)..], size)
  {
    var t := s[i..];
    if |t| > size {
      assert t[..size] == s[i..i + size];
      assert t[size..] == s[i + size..];
    } else {
      assert s[i..|s|] == t;
      assert s[|s|..] == [];
    }
  }

  /** The pieces concatenate back to `s`. */
  lemma {:induction false} ChunksFlatten<T>(s: seq<T>, size: nat)
    requires size > 0
    ensures Flatten(Chunks(s, size)) == s
    decreases |s|
  {
    if s != [] && |s| > size {
      var rest := Chunks(s[size..], size);
      ChunksFlatten(s[size..], size);
      assert Chunks(s, size) == [s[..size]] + rest;
      assert Flatten([s[..size]] + rest) == s[..size] + Flatten(rest);
      assert s == s[..size] + s[size..];
    } else if s != [] {
      assert Chunks(s, size) == [s];
      assert Flatten([s]) == s + Flatten([s][1..]);
    }
  }

  /** Every element of a piece is an element of `s`. */
  lemma ChunkElems<T>(s: seq<T>, size: nat, k: nat)
    requires size > 0 && k < |Chunks(s, size)|
    ensures forall x :: x in Chunks(s, size)[k] ==> x in s
  {
    ChunkSlice(s, size, k);
  }

  /** No piece is empty, every piece but the last holds exactly `size`
      elements, and the number of pieces is ceil(|s| / size), stated without
      division: `size * (n - 1) < |s| <= size * n`. */
  lemma {:induction false} ChunksSizes<T>(s: seq<T>, size: nat)
    requires size > 0
    ensures forall k :: 0 <= k < |Chunks(s, size)| ==> 0 < |Chunks(s, size)[k]| <= size
    ensures forall k :: 0 <= k < |Chunks(s, size)| - 1 ==> |Chunks(s, size)[k]| == size
    ensures |Chunks(s, size)| * size - size < |s| <= |Chunks(s, size)| * size
    decreases |s|
  {
    if s != [] && |s| > size {
      var rest := Chunks(s[size..], size);
      ChunksSizes(s[size..], size);
      assert Chunks(s, size) == [s[..size]] + rest;
      assert (|rest| + 1) * size == |rest| * size + size;
    }
  }

  lemma AppendAssoc<T>(a: seq<T>, b: seq<T>, c: seq<T>)
    ensures (a + b) + c == a + (b + c)
  {
  }

  /** A slice inside the first part of a concatenation. */
  lemma SliceLeft<T>(a: seq<T>, b: seq<T>, lo: nat, hi: nat)
    requires lo <= hi <= |a|
    ensures (a + b)[lo..hi] == a[lo..hi]
  {
    assert forall i :: 0 <= i < hi - lo ==> (a + b)[lo..hi][i] == a[lo + i];
  }

  /** The second part of a concatenation, as a slice. */
  lemma SliceRight<T>(a: seq<T>, b: seq<T>)
    ensures (a + b)[|a|..|a| + |b|] == b
  {
  }

  lemma DropSlice<T>(s: seq<T>, d: nat, lo: nat, hi: nat)
    requires d <= |s| && lo <= hi <= |s| - d
    ensures s[d..][lo..hi] == s[d + lo..d + hi]
  {
    assert forall i :: 0 <= i < hi - lo ==> s[d..][lo..hi][i] == s[d + lo + i];
  }

  lemma MulPred(k: int, size: int)
    ensures (k - 1) * size + size == k * size
  {
  }

  /** Piece `k` is the slice that starts at `k * size`. */
  lemma {:induction false} ChunkSlice<T>(s: seq<T>, size: nat, k: nat)
    requires size > 0 && k < |Chunks(s, size)|
    ensures k * size < |s|
    ensures Chunks(s, size)[k] == s[k * size..Min(k * size + size, |s|)]
    decreases |s|
  {
    if k > 0 {
      assert |s| > size;
      var t := s[size..];
      assert Chunks(s, size)[k] == Chunks(t, size)[k - 1];
      ChunkSlice(t, size, k - 1);
      var j := (k - 1) * size;
      MulPred(k, size);
      var hi := Min(j + size, |t|);
      assert j + size == k * size && hi + size == Min(k * size + size, |s|);
      DropSlice(s, size, j, hi);
    }
  }
}
