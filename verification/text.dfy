/** Python string behaviour the pipeline relies on: `str.strip`, `str.replace`,
    `str.join`, and the code-point ordering that `sorted`, `max` and pandas'
    `Series.mode` use on strings. */
module Text {
  import opened Seqs

  /** Python's `str.isspace` for one character. */
  predicate IsSpace(c: char) {
    c == ' ' || c == '\t' || c == '\n' || c == '\r' || c == '\U{000B}' || c == '\U{000C}'
    || ('\U{001C}' <= c <= '\U{001F}') || c == '\U{0085}' || c == '\U{00A0}' || c == '\U{1680}'
    || ('\U{2000}' <= c <= '\U{200A}') || c == '\U{2028}' || c == '\U{2029}' || c == '\U{202F}'
    || c == '\U{205F}' || c == '\U{3000}'
  }

  /** Every character of `s` is whitespace (true of the empty string). */
  predicate AllSpace(s: string) {
    forall k :: 0 <= k < |s| ==> IsSpace(s[k])
  }

  /** Python's `str.lstrip()`: a suffix of `s`; what it drops is whitespace
      and what it keeps does not start with whitespace. */
  function StripLeft(s: string): (r: string)
    ensures |r| <= |s|
    ensures AllSpace(s[..|s| - |r|])
    ensures r != [] ==> !IsSpace(r[0])
    decreases |s|
  {
    if s != [] && IsSpace(s[0]) then
      var r := StripLeft(s[1..]);
      assert s[..|s| - |r|] == [s[0]] + s[1..][..|s| - 1 - |r|];
      r
    else s
  }

  /** Python's `str.rstrip()`: a prefix of `s`; what it drops is whitespace
      and what it keeps does not end with whitespace. */
  function StripRight(s: string): (r: string)
    ensures |r| <= |s|
    ensures AllSpace(s[|r|..])
    ensures r != [] ==> !IsSpace(r[|r| - 1])
    decreases |s|
  {
    if s != [] && IsSpace(s[|s| - 1]) then
      var r := StripRight(s[..|s| - 1]);
      assert s[|r|..] == s[..|s| - 1][|r|..] + [s[|s| - 1]];
      r
    else s
  }

  /** What `lstrip` keeps is a suffix of `s`. */
  lemma {:induction false} StripLeftSuffix(s: string)
    ensures StripLeft(s) == s[|s| - |StripLeft(s)|..]
    decreases |s|
  {
    if s != [] && IsSpace(s[0]) {
      StripLeftSuffix(s[1..]);
    }
  }

  /** What `rstrip` keeps is a prefix of `s`. */
  lemma {:induction false} StripRightPrefix(s: string)
    ensures StripRight(s) == s[..|StripRight(s)|]
    decreases |s|
  {
    if s != [] && IsSpace(s[|s| - 1]) {
      StripRightPrefix(s[..|s| - 1]);
    }
  }

  /** Python's `str.strip()`: `s` without its leading and trailing whitespace.
      The result is empty exactly when `s` is all whitespace, and otherwise
      starts and ends with a non-whitespace character. */
  function Strip(s: string): (r: string)
    ensures r != [] ==> !IsSpace(r[0]) && !IsSpace(r[|r| - 1])
    ensures r == [] <==> AllSpace(s)
  {
    StripBlank(s);
    StripRightPrefix(StripLeft(s));
    StripRight(StripLeft(s))
  }

  lemma StripBlank(s: string)
    ensures StripRight(StripLeft(s)) == [] <==> AllSpace(s)
  {
    var left := StripLeft(s);
    var n := |s| - |left|;
    StripLeftSuffix(s);
    if left == [] {
      assert s[..n] == s;
    } else {
      assert left[0] == s[n];
      assert !AllSpace(s);
    }
  }

  /** `strip` keeps a contiguous middle part of `s` and drops only
      whitespace on either side of it. */
  lemma StripSlice(s: string)
    ensures var lo := |s| - |StripLeft(s)|;
      && lo + |Strip(s)| <= |s| && Strip(s) == s[lo..lo + |Strip(s)|]
      && AllSpace(s[..lo]) && AllSpace(s[lo + |Strip(s)|..])
  {
    var left := StripLeft(s);
    var lo := |s| - |left|;
    StripLeftSuffix(s);
    StripRightPrefix(left);
    var r := Strip(s);
    assert AllSpace(s[lo + |r|..]) by {
      assert left[|r|..] == s[lo + |r|..];
    }
    assert r == s[lo..lo + |r|] by {
      assert r == left[..|r|];
    }
  }

  /** `not s.strip()` in Python: the string is empty or all whitespace. */
  predicate IsBlank(s: string) {
    Strip(s) == ""
  }

  /** Stripping is idempotent: a stripped string has nothing left to strip. */
  lemma StripIdempotent(s: string)
    ensures Strip(Strip(s)) == Strip(s)
  {
    var r := Strip(s);
    if r != [] {
      assert StripLeft(r) == r;
      assert StripRight(r) == r;
    }
  }

  /** A string that neither starts nor ends with whitespace is left as it is. */
  lemma StripUnchanged(s: string)
    requires s != [] && !IsSpace(s[0]) && !IsSpace(s[|s| - 1])
    ensures Strip(s) == s
  {
    assert StripLeft(s) == s;
    assert StripRight(s) == s;
  }

  /** Python's `s.replace("\n", " ")`. */
  function ReplaceNewlines(s: string): (r: string)
    ensures |r| == |s|
    ensures '\n' !in r
    decreases |s|
  {
    if s == [] then []
    else [if s[0] == '\n' then ' ' else s[0]] + ReplaceNewlines(s[1..])
  }

  /** Each line break becomes a space and every other character stays. */
  lemma {:induction false} ReplaceNewlinesAt(s: string, k: nat)
    requires k < |s|
    ensures ReplaceNewlines(s)[k] == if s[k] == '\n' then ' ' else s[k]
    decreases |s|
  {
    if k > 0 {
      ReplaceNewlinesAt(s[1..], k - 1);
    }
  }

  /** A text without line breaks is left as it is. */
  lemma {:induction false} ReplaceNewlinesNone(s: string)
    requires '\n' !in s
    ensures ReplaceNewlines(s) == s
    decreases |s|
  {
    if s != [] {
      assert s[0] != '\n' && '\n' !in s[1..];
      ReplaceNewlinesNone(s[1..]);
    }
  }

  /** Python's `sep.join(parts)`. */
  function Join(parts: seq<string>, sep: string): string
    decreases |parts|
  {
    if |parts| == 0 then ""
    else if |parts| == 1 then parts[0]
    else parts[0] + sep + Join(parts[1..], sep)
  }

  /** With a non-empty separator the join is empty exactly when there is
      no part or a single empty part. */
  lemma JoinEmpty(parts: seq<string>, sep: string)
    requires sep != ""
    ensures Join(parts, sep) == "" <==> parts == [] || parts == [""]
  {
    if |parts| > 1 {
      assert |Join(parts, sep)| >= |sep|;
    }
  }

  /** Joining one more part appends the separator and that part. */
  lemma {:induction false} JoinSnoc(parts: seq<string>, x: string, sep: string)
    requires parts != []
    ensures Join(parts + [x], sep) == Join(parts, sep) + sep + x
    decreases |parts|
  {
    if |parts| > 1 {
      assert (parts + [x])[1..] == parts[1..] + [x];
      JoinSnoc(parts[1..], x, sep);
    } else {
      assert parts + [x] == [parts[0], x];
      assert [parts[0], x][1..] == [x];
    }
  }

  // ---------------------------------------------------------------------------
  // Code-point order on strings

  /** Python's `a < b` on strings: lexicographic by code point, a proper
      prefix coming first. */
  predicate Less(a: string, b: string)
    decreases |a|
  {
    |b| > 0 && (|a| == 0 || a[0] < b[0] || (a[0] == b[0] && Less(a[1..], b[1..])))
  }

  lemma {:induction false} LessIrreflexive(a: string)
    ensures !Less(a, a)
    decreases |a|
  {
    if |a| > 0 {
      LessIrreflexive(a[1..]);
    }
  }

  lemma {:induction false} LessTransitive(a: string, b: string, c: string)
    requires Less(a, b) && Less(b, c)
    ensures Less(a, c)
    decreases |a|
  {
    if |a| > 0 && a[0] == b[0] && b[0] == c[0] {
      LessTransitive(a[1..], b[1..], c[1..]);
    }
  }

  lemma {:induction false} LessTotal(a: string, b: string)
    ensures a == b || Less(a, b) || Less(b, a)
    decreases |a|
  {
    if |a| > 0 && |b| > 0 && a[0] == b[0] {
      LessTotal(a[1..], b[1..]);
      if a[1..] == b[1..] {
        assert a == [a[0]] + a[1..] && b == [b[0]] + b[1..];
      }
    }
  }

  lemma LessAsymmetric(a: string, b: string)
    requires Less(a, b)
    ensures !Less(b, a)
  {
    if Less(b, a) {
      LessTransitive(a, b, a);
      LessIrreflexive(a);
    }
  }

  /** Strictly increasing under `Less`; in particular without duplicates. */
  predicate StrictlySorted(s: seq<string>) {
    forall j, k :: 0 <= j < k < |s| ==> Less(s[j], s[k])
  }

  /** Inserts `x` into a strictly sorted sequence, unless it is already there. */
  function Insert(x: string, s: seq<string>): (r: seq<string>)
    requires StrictlySorted(s)
    ensures StrictlySorted(r)
    ensures Elems(r) == Elems(s) + {x}
    decreases |s|
  {
    if s == [] then [x]
    else if x == s[0] then s
    else if Less(x, s[0]) then
      assert forall k :: 0 <= k < |s| ==> Less(x, s[k]) by {
        forall k | 0 <= k < |s| ensures Less(x, s[k]) {
          if k > 0 { LessTransitive(x, s[0], s[k]); }
        }
      }
      Cons(x, s)
    else
      var rest := Insert(x, s[1..]);
      LessTotal(x, s[0]);
      assert s == [s[0]] + s[1..];
      assert forall k :: 0 <= k < |rest| ==> Less(s[0], rest[k]) by {
        forall k | 0 <= k < |rest| ensures Less(s[0], rest[k]) {
          assert rest[k] in Elems(rest);
          if rest[k] != x {
            var j :| 0 <= j < |s[1..]| && s[1..][j] == rest[k];
            assert s[j + 1] == rest[k];
          }
        }
      }
      Cons(s[0], rest)
  }

  /** Puts `x` in front of a strictly sorted sequence whose elements all
      exceed it. */
  function Cons(x: string, s: seq<string>): (r: seq<string>)
    requires StrictlySorted(s)
    requires forall k :: 0 <= k < |s| ==> Less(x, s[k])
    ensures r == [x] + s
    ensures StrictlySorted(r)
    ensures Elems(r) == Elems(s) + {x}
  {
    var r := [x] + s;
    assert forall k :: 1 <= k < |r| ==> r[k] == s[k - 1];
    assert forall y :: y in r <==> y == x || y in s;
    r
  }

  /** Python's `sorted(set(values))`: the distinct values in increasing order. */
  function SortedUnique(values: seq<string>): (r: seq<string>)
    ensures StrictlySorted(r)
    ensures Elems(r) == Elems(values)
    decreases |values|
  {
    if values == [] then []
    else
      var n := |values| - 1;
      assert values == values[..n] + [values[n]];
      Insert(values[n], SortedUnique(values[..n]))
  }

  /** A strictly sorted sequence is determined by its set of elements, so
      `SortedUnique(values)` is the only strictly sorted listing of them. */
  lemma {:induction false} SortedListingUnique(a: seq<string>, b: seq<string>)
    requires StrictlySorted(a) && StrictlySorted(b)
    requires Elems(a) == Elems(b)
    ensures a == b
    decreases |a|
  {
    if a != [] {
      assert b != [] by { assert a[0] in Elems(b); }
      // a[0] and b[0] are both the least element
      assert a[0] in Elems(b);
      assert b[0] in Elems(a);
      var i :| 0 <= i < |b| && b[i] == a[0];
      var j :| 0 <= j < |a| && a[j] == b[0];
      if i > 0 {
        assert Less(b[0], a[0]);
        if j > 0 { LessAsymmetric(a[0], a[j]); } else { LessIrreflexive(a[0]); }
      }
      assert a[0] == b[0];
      assert Elems(a[1..]) == Elems(b[1..]) by {
        forall x ensures x in Elems(a[1..]) <==> x in Elems(b[1..]) {
          if x in Elems(a[1..]) {
            var p :| 0 <= p < |a[1..]| && a[1..][p] == x;
            assert Less(a[0], a[p + 1]);
            assert x in Elems(b);
            if x == b[0] { LessIrreflexive(x); }
            var q :| 0 <= q < |b| && b[q] == x;
            assert q > 0;
            assert b[1..][q - 1] == x;
          }
          if x in Elems(b[1..]) {
            var p :| 0 <= p < |b[1..]| && b[1..][p] == x;
            assert Less(b[0], b[p + 1]);
            assert x in Elems(a);
            if x == a[0] { LessIrreflexive(x); }
            var q :| 0 <= q < |a| && a[q] == x;
            assert q > 0;
            assert a[1..][q - 1] == x;
          }
        }
      }
      SortedListingUnique(a[1..], b[1..]);
      assert a == [a[0]] + a[1..] && b == [b[0]] + b[1..];
    } else {
      ElemsEmpty(b);
    }
  }

  /** Python's `max(values)` on strings: an element that no other exceeds. */
  function MaxOf(values: seq<string>): (r: string)
    requires values != []
    ensures r in values
    ensures forall k :: 0 <= k < |values| ==> values[k] == r || Less(values[k], r)
    decreases |values|
  {
    if |values| == 1 then values[0]
    else
      var m := MaxOf(values[1..]);
      LessTotal(values[0], m);
      if Less(m, values[0]) then
        assert forall k :: 1 <= k < |values| ==> Less(values[k], values[0]) by {
          forall k | 1 <= k < |values| ensures Less(values[k], values[0]) {
            assert values[1..][k - 1] == values[k];
            if values[k] != m { LessTransitive(values[k], m, values[0]); }
          }
        }
        values[0]
      else
        assert forall k :: 1 <= k < |values| ==> values[k] == m || Less(values[k], m) by {
          forall k | 1 <= k < |values| ensures values[k] == m || Less(values[k], m) {
            assert values[1..][k - 1] == values[k];
          }
        }
        m
  }

  // ---------------------------------------------------------------------------
  // Most frequent value

  /** How often `v` occurs in `values`. */
  function Occurrences(values: seq<string>, v: string): nat {
    multiset(values)[v]
  }

  /** `c` beats `b` as a mode: it is more frequent, or as frequent and smaller. */
  predicate Beats(values: seq<string>, c: string, b: string) {
    Occurrences(values, c) > Occurrences(values, b)
    || (Occurrences(values, c) == Occurrences(values, b) && Less(c, b))
  }

  lemma BeatsTransitive(values: seq<string>, a: string, b: string, c: string)
    requires Beats(values, a, b) && Beats(values, b, c)
    ensures Beats(values, a, c)
  {
    if Occurrences(values, a) == Occurrences(values, b) == Occurrences(values, c) {
      LessTransitive(a, b, c);
    }
  }

  lemma BeatsTotal(values: seq<string>, a: string, b: string)
    ensures a == b || Beats(values, a, b) || Beats(values, b, a)
  {
    LessTotal(a, b);
  }

  /** The best of `candidates` by frequency in `values`, ties going to the
      smallest string. */
  function ModeAmong(values: seq<string>, candidates: seq<string>): (r: string)
    requires candidates != []
    ensures r in candidates
    ensures forall k :: 0 <= k < |candidates| ==> candidates[k] == r || Beats(values, r, candidates[k])
    decreases |candidates|
  {
    if |candidates| == 1 then candidates[0]
    else
      var b := ModeAmong(values, candidates[1..]);
      var c := candidates[0];
      var r := if Beats(values, c, b) then c else b;
      assert forall k :: 0 <= k < |candidates| ==> candidates[k] == r || Beats(values, r, candidates[k]) by {
        BeatsTotal(values, c, b);
        forall k | 0 <= k < |candidates|
          ensures candidates[k] == r || Beats(values, r, candidates[k])
        {
          var x := candidates[k];
          if k > 0 {
            assert candidates[1..][k - 1] == x;
            if r == c && x != b && Beats(values, c, b) {
              BeatsTransitive(values, c, b, x);
            }
          }
        }
      }
      r
  }

  /** pandas' `Series.mode().iloc[0]` on strings: a most frequent value, the
      smallest one when several are equally frequent. */
  function Mode(values: seq<string>): (r: string)
    requires values != []
    ensures r in values
    ensures forall v :: v in values ==> Occurrences(values, v) <= Occurrences(values, r)
    ensures forall v :: v in values && Occurrences(values, v) == Occurrences(values, r) ==> v == r || Less(r, v)
  {
    var r := ModeAmong(values, values);
    assert forall v :: v in values ==> v == r || Beats(values, r, v) by {
      forall v | v in values ensures v == r || Beats(values, r, v) {
        var k :| 0 <= k < |values| && values[k] == v;
      }
    }
    r
  }
}
