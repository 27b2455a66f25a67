/** `util::split<N>`: fixed-arity splitting of a line view into fields. */
module Util {
  import opened Common

  /** A field is a `string_view` into the line: the bytes `s[start..end]`. */
  datatype Span = Span(start: nat, end: nat)

  /** The bytes a span denotes (nothing for a span outside the text). */
  function Text(s: string, f: Span): string
  {
    if f.start <= f.end <= |s| then s[f.start..f.end] else []
  }

  /** The bytes of each span, in order. */
  function Texts(s: string, sp: seq<Span>): (ts: seq<string>)
    ensures |ts| == |sp|
  {
    seq(|sp|, k requires 0 <= k < |sp| => Text(s, sp[k]))
  }

  /** The inner loop of `split`: the first index at or after `j` that does
      not hold the delimiter. */
  function SkipDelims(s: string, d: char, j: nat): (k: nat)
    requires j <= |s|
    ensures j <= k <= |s|
    decreases |s| - j
  {
    if j < |s| && s[j] == d then SkipDelims(s, d, j + 1) else j
  }

  /** The `find_delim_or_null` lambda: the first index at or after `start`
      holding the delimiter or NUL, or None (`Str::npos`). */
  function FindDelimOrNull(s: string, d: char, start: nat): (r: Option<nat>)
    requires start <= |s|
    ensures r.Some? ==> start <= r.value < |s| && (s[r.value] == d || s[r.value] == NUL)
    decreases |s| - start
  {
    if start == |s| then None
    else if s[start] == d || s[start] == NUL then Some(start)
    else FindDelimOrNull(s, d, start + 1)
  }

  /** The spans the scan of `split` produces from index `j` on when the
      arity does not stop it: skip a run of delimiters, cut a field at the
      next delimiter or NUL; stop at end of text, at NUL or '\n' where a
      field would start, and after a field cut by NUL or by a '\n' delimiter. */
  function FieldSpans(s: string, d: char, j: nat): (sp: seq<Span>)
    requires j <= |s|
    decreases |s| - j
  {
    if j == |s| || s[j] == NUL || s[j] == '\n' then []
    else
      var a := SkipDelims(s, d, j);
      match FindDelimOrNull(s, d, a)
      case None => [Span(a, |s|)]
      case Some(pos) =>
        if s[pos] == NUL || s[pos] == '\n' then [Span(a, pos)]
        else [Span(a, pos)] + FieldSpans(s, d, pos + 1)
  }

  /** One round of the scan, started at `j` where a field may begin, seen
      from a caller that has already collected the first `i` spans `sp`:
      the field it cuts is span `i`, and the scan either ends there or
      goes on after the delimiter. */
  lemma ScanRound(s: string, d: char, j: nat, a: nat, p: Option<nat>, sp: seq<Span>, i: nat)
    requires j < |s| && s[j] != NUL && s[j] != '\n'
    requires i <= |sp| && FieldSpans(s, d, j) == sp[i..]
    requires a == SkipDelims(s, d, j) && p == FindDelimOrNull(s, d, a)
    ensures i < |sp|
    ensures p.None? ==> Text(s, sp[i]) == s[a..] && |sp| == i + 1
    ensures p.Some? ==> a <= p.value < |s| && Text(s, sp[i]) == s[a..p.value]
    ensures p.Some? && (s[p.value] == NUL || s[p.value] == '\n') ==> |sp| == i + 1
    ensures p.Some? && s[p.value] != NUL && s[p.value] != '\n' ==> FieldSpans(s, d, p.value + 1) == sp[i + 1..]
  {
    var rest := FieldSpans(s, d, j);
    if p.None? {
      assert rest == [Span(a, |s|)];
    } else if s[p.value] == NUL || s[p.value] == '\n' {
      assert rest == [Span(a, p.value)];
    } else {
      assert rest == [Span(a, p.value)] + FieldSpans(s, d, p.value + 1);
      assert sp[i + 1..] == rest[1..];
    }
    assert sp[i] == rest[0];
  }

  /** The inner loop of `split` stops exactly at `SkipDelims`. */
  lemma {:induction false} SkipDelimsAt(s: string, d: char, j: nat, k: nat)
    requires j <= k <= |s|
    requires forall x | j <= x < k :: s[x] == d
    requires k == |s| || s[k] != d
    ensures SkipDelims(s, d, j) == k
    decreases k - j
  {
    if j < k {
      SkipDelimsAt(s, d, j + 1, k);
    }
  }

  lemma TextsOf(s: string, sp: seq<Span>, ts: seq<string>)
    requires |ts| == |sp|
    requires forall k | 0 <= k < |sp| :: ts[k] == Text(s, sp[k])
    ensures ts == Texts(s, sp)
  {
  }

  /** The inner loop of `split`: steps over a run of delimiters. */
  method SkipDelimiters(s: string, d: char, j: nat) returns (k: nat)
    requires j <= |s|
    ensures k == SkipDelims(s, d, j)
  {
    k := j;
    while k != |s| && s[k] == d
      invariant j <= k <= |s|
      invariant forall x | j <= x < k :: s[x] == d
    {
      k := k + 1;
    }
    SkipDelimsAt(s, d, j, k);
  }

  /** What `split<n>(s, d)` returns. */
  function SplitSpec(s: string, d: char, n: nat): (r: Option<seq<string>>)
    ensures r.Some? ==> |r.value| == n
  {
    var sp := FieldSpans(s, d, 0);
    if |sp| >= n then Some(Texts(s, sp[..n])) else None
  }

  /** `util::split<n>(s, d)`: the loop of the source, writing `res[i++]`
      into a fixed array of `n` views. */
  method Split(s: string, d: char, n: nat) returns (r: Option<seq<string>>)
    ensures r == SplitSpec(s, d, n)
  {
    ghost var sp := FieldSpans(s, d, 0);
    var res := new string[n];
    var i: nat := 0;
    var j: nat := 0;
    while i < n && j < |s| && s[j] != NUL && s[j] != '\n'
      invariant i <= n && j <= |s| && i <= |sp|
      invariant FieldSpans(s, d, j) == sp[i..]
      invariant forall k | 0 <= k < i :: res[k] == Text(s, sp[k])
    {
      ghost var j0 := j;
      j := SkipDelimiters(s, d, j);
      var pos := FindDelimOrNull(s, d, j);
      ScanRound(s, d, j0, j, pos, sp, i);
      if pos.None? {
        res[i] := s[j..];
        i := i + 1;
        break;
      }
      if s[pos.value] == NUL || s[pos.value] == '\n' {
        res[i] := s[j..pos.value];
        i := i + 1;
        break;
      }
      res[i] := s[j..pos.value];
      i := i + 1;
      j := pos.value + 1;
    }
    if i != n {
      return None;
    }
    TextsOf(s, sp[..n], res[..]);
    return Some(res[..]);
  }

  /** The inner loop leaves behind a run of delimiters and stops on a
      non-delimiter or at the end. */
  lemma {:induction false} SkipDelimsRun(s: string, d: char, j: nat)
    requires j <= |s|
    ensures forall x | j <= x < SkipDelims(s, d, j) :: s[x] == d
    ensures SkipDelims(s, d, j) < |s| ==> s[SkipDelims(s, d, j)] != d
    decreases |s| - j
  {
    if j < |s| && s[j] == d {
      SkipDelimsRun(s, d, j + 1);
    }
  }

  /** `find_delim_or_null` passes over neither a delimiter nor a NUL. */
  lemma {:induction false} FindDelimOrNullClear(s: string, d: char, start: nat)
    requires start <= |s|
    ensures var r := FindDelimOrNull(s, d, start);
            forall x | start <= x < (if r.Some? then r.value else |s|) :: s[x] != d && s[x] != NUL
    decreases |s| - start
  {
    if start < |s| && s[start] != d && s[start] != NUL {
      FindDelimOrNullClear(s, d, start + 1);
    }
  }

  /** Every span lies in the text, at or after `j`. */
  predicate Bounded(s: string, j: nat, sp: seq<Span>)
  {
    forall k | 0 <= k < |sp| :: j <= sp[k].start <= sp[k].end <= |s|
  }

  /** No field holds the delimiter or NUL. */
  predicate Clear(s: string, d: char, sp: seq<Span>)
  {
    forall k | 0 <= k < |sp| :: d !in Text(s, sp[k]) && NUL !in Text(s, sp[k])
  }

  /** Every field but the last is non-empty and ends before the next begins. */
  predicate Increasing(sp: seq<Span>)
  {
    forall k | 0 <= k < |sp| - 1 :: sp[k].start < sp[k].end < sp[k + 1].start
  }

  /** `t` consists of the delimiter only. */
  predicate OnlyDelims(t: string, d: char)
  {
    forall c | c in t :: c == d
  }

  /** Consecutive fields are separated by a run of delimiters only. */
  predicate Separated(s: string, d: char, sp: seq<Span>)
  {
    forall k | 0 <= k < |sp| - 1 :: OnlyDelims(Text(s, Span(sp[k].end, sp[k + 1].start)), d)
  }

  /** Every field is maximal: it starts past the whole run of delimiters
      before it and runs up to a delimiter, a NUL or the end of the text. */
  predicate Maximal(s: string, d: char, sp: seq<Span>)
  {
    forall k | 0 <= k < |sp| ::
      && (sp[k].start < |s| ==> s[sp[k].start] != d)
      && (sp[k].end < |s| ==> s[sp[k].end] == d || s[sp[k].end] == NUL)
  }

  /** The shape of a scan from `j`: contiguous, maximal fields at strictly
      increasing, non-overlapping positions, free of delimiter and NUL, with
      only delimiters before the first and between any two. */
  predicate WellFormed(s: string, d: char, j: nat, sp: seq<Span>)
  {
    && Bounded(s, j, sp)
    && Clear(s, d, sp)
    && Increasing(sp)
    && Separated(s, d, sp)
    && Maximal(s, d, sp)
    && (|sp| > 0 ==> OnlyDelims(Text(s, Span(j, sp[0].start)), d))
  }

  lemma BoundedCons(s: string, j: nat, f: Span, rest: seq<Span>, j': nat)
    requires j <= f.start <= f.end <= j' && f.end <= |s| && Bounded(s, j', rest)
    ensures Bounded(s, j, [f] + rest)
  {
    var sp := [f] + rest;
    forall k | 0 <= k < |sp| ensures j <= sp[k].start <= sp[k].end <= |s| {
      if k > 0 { assert sp[k] == rest[k - 1]; }
    }
  }

  lemma ClearCons(s: string, d: char, f: Span, rest: seq<Span>)
    requires d !in Text(s, f) && NUL !in Text(s, f) && Clear(s, d, rest)
    ensures Clear(s, d, [f] + rest)
  {
    var sp := [f] + rest;
    forall k | 0 <= k < |sp| ensures d !in Text(s, sp[k]) && NUL !in Text(s, sp[k]) {
      if k > 0 { assert sp[k] == rest[k - 1]; }
    }
  }

  lemma IncreasingCons(f: Span, rest: seq<Span>)
    requires Increasing(rest)
    requires |rest| > 0 ==> f.start < f.end < rest[0].start
    ensures Increasing([f] + rest)
  {
    var sp := [f] + rest;
    forall k | 0 <= k < |sp| - 1 ensures sp[k].start < sp[k].end < sp[k + 1].start {
      if k > 0 { assert sp[k] == rest[k - 1] && sp[k + 1] == rest[k]; }
    }
  }

  lemma SeparatedCons(s: string, d: char, f: Span, rest: seq<Span>)
    requires Separated(s, d, rest)
    requires |rest| > 0 ==> OnlyDelims(Text(s, Span(f.end, rest[0].start)), d)
    ensures Separated(s, d, [f] + rest)
  {
    var sp := [f] + rest;
    forall k | 0 <= k < |sp| - 1 ensures OnlyDelims(Text(s, Span(sp[k].end, sp[k + 1].start)), d) {
      if k > 0 { assert sp[k] == rest[k - 1] && sp[k + 1] == rest[k]; }
    }
  }

  lemma MaximalCons(s: string, d: char, f: Span, rest: seq<Span>)
    requires f.start < |s| ==> s[f.start] != d
    requires f.end < |s| ==> s[f.end] == d || s[f.end] == NUL
    requires Maximal(s, d, rest)
    ensures Maximal(s, d, [f] + rest)
  {
    var sp := [f] + rest;
    forall k | 0 <= k < |sp|
      ensures && (sp[k].start < |s| ==> s[sp[k].start] != d)
              && (sp[k].end < |s| ==> s[sp[k].end] == d || s[sp[k].end] == NUL)
    {
      if k > 0 { assert sp[k] == rest[k - 1]; }
    }
  }

  /** A slice whose every index satisfies a fact about the text. */
  lemma OnlyDelimsOf(s: string, d: char, lo: nat, hi: nat)
    requires lo <= hi <= |s|
    requires forall x | lo <= x < hi :: s[x] == d
    ensures OnlyDelims(Text(s, Span(lo, hi)), d)
  {
    forall c | c in s[lo..hi] ensures c == d {
      var i :| 0 <= i < hi - lo && s[lo..hi][i] == c;
      assert s[lo + i] == c;
    }
  }

  lemma ClearOf(s: string, d: char, lo: nat, hi: nat)
    requires lo <= hi <= |s|
    requires forall x | lo <= x < hi :: s[x] != d && s[x] != NUL
    ensures d !in Text(s, Span(lo, hi)) && NUL !in Text(s, Span(lo, hi))
  {
    forall i | 0 <= i < hi - lo ensures s[lo..hi][i] != d && s[lo..hi][i] != NUL {
      assert s[lo..hi][i] == s[lo + i];
    }
  }

  /** A field `[a, e)` cut at a delimiter, followed by a well-formed scan
      from `e + 1`, is a well-formed scan from `j`. */
  lemma WellFormedCons(s: string, d: char, j: nat, a: nat, e: nat, rest: seq<Span>)
    requires j <= a < e < |s| && s[e] == d
    requires forall x | j <= x < a :: s[x] == d
    requires forall x | a <= x < e :: s[x] != d && s[x] != NUL
    requires WellFormed(s, d, e + 1, rest)
    ensures WellFormed(s, d, j, [Span(a, e)] + rest)
  {
    var f := Span(a, e);
    OnlyDelimsOf(s, d, j, a);
    ClearOf(s, d, a, e);
    BoundedCons(s, j, f, rest, e + 1);
    ClearCons(s, d, f, rest);
    IncreasingCons(f, rest);
    if |rest| > 0 {
      var b := rest[0].start;
      assert OnlyDelims(Text(s, Span(e, b)), d) by {
        assert Text(s, Span(e, b)) == [s[e]] + Text(s, Span(e + 1, b));
      }
    }
    SeparatedCons(s, d, f, rest);
    MaximalCons(s, d, f, rest);
  }

  /** A single last field `[a, e)` after a run of delimiters is a
      well-formed scan from `j`. */
  lemma WellFormedLast(s: string, d: char, j: nat, a: nat, e: nat)
    requires j <= a <= e <= |s|
    requires forall x | j <= x < a :: s[x] == d
    requires forall x | a <= x < e :: s[x] != d && s[x] != NUL
    requires a < |s| ==> s[a] != d
    requires e < |s| ==> s[e] == d || s[e] == NUL
    ensures WellFormed(s, d, j, [Span(a, e)])
  {
    OnlyDelimsOf(s, d, j, a);
    ClearOf(s, d, a, e);
  }

  /** The scan from any start index is well formed. */
  lemma {:induction false} FieldSpansWellFormed(s: string, d: char, j: nat)
    requires j <= |s|
    ensures WellFormed(s, d, j, FieldSpans(s, d, j))
    decreases |s| - j
  {
    if j < |s| && s[j] != NUL && s[j] != '\n' {
      var a := SkipDelims(s, d, j);
      SkipDelimsRun(s, d, j);
      FindDelimOrNullClear(s, d, a);
      var p := FindDelimOrNull(s, d, a);
      if p.None? {
        assert FieldSpans(s, d, j) == [Span(a, |s|)];
        WellFormedLast(s, d, j, a, |s|);
      } else if s[p.value] == NUL || s[p.value] == '\n' {
        assert FieldSpans(s, d, j) == [Span(a, p.value)];
        WellFormedLast(s, d, j, a, p.value);
      } else {
        var rest := FieldSpans(s, d, p.value + 1);
        assert FieldSpans(s, d, j) == [Span(a, p.value)] + rest;
        FieldSpansWellFormed(s, d, p.value + 1);
        assert a != p.value;
        WellFormedCons(s, d, j, a, p.value, rest);
      }
    }
  }

  /** Keeping a well-formed scan's first `m` spans keeps it well formed. */
  lemma WellFormedPrefix(s: string, d: char, j: nat, sp: seq<Span>, m: nat)
    requires WellFormed(s, d, j, sp) && m <= |sp|
    ensures WellFormed(s, d, j, sp[..m])
  {
    var q := sp[..m];
    assert forall k | 0 <= k < m :: q[k] == sp[k];
  }

  /** Inside a delimiter run, every byte is the delimiter. */
  lemma InRun(s: string, d: char, lo: nat, x: nat, hi: nat)
    requires lo <= x < hi <= |s| && OnlyDelims(Text(s, Span(lo, hi)), d)
    ensures s[x] == d
  {
    assert s[lo..hi][x - lo] == s[x];
    assert s[x] in Text(s, Span(lo, hi));
  }

  /** Two ends of a delimiter run from `lo`, each at a non-delimiter or at
      the end of the text, are the same index. */
  lemma RunEndUnique(s: string, d: char, lo: nat, x: nat, y: nat)
    requires lo <= x <= |s| && lo <= y <= |s|
    requires OnlyDelims(Text(s, Span(lo, x)), d) && OnlyDelims(Text(s, Span(lo, y)), d)
    requires x < |s| ==> s[x] != d
    requires y < |s| ==> s[y] != d
    ensures x == y
  {
    if x < y {
      InRun(s, d, lo, x, y);
    } else if y < x {
      InRun(s, d, lo, y, x);
    }
  }

  /** Two ends of a delimiter- and NUL-free run from `a`, each at a
      delimiter, a NUL or the end of the text, are the same index. */
  lemma CutEndUnique(s: string, d: char, a: nat, x: nat, y: nat)
    requires a <= x <= |s| && a <= y <= |s|
    requires d !in Text(s, Span(a, x)) && NUL !in Text(s, Span(a, x))
    requires d !in Text(s, Span(a, y)) && NUL !in Text(s, Span(a, y))
    requires x < |s| ==> s[x] == d || s[x] == NUL
    requires y < |s| ==> s[y] == d || s[y] == NUL
    ensures x == y
  {
  }

  /** Span `k` of two well-formed scans from `j` is the same span. */
  lemma {:induction false} WellFormedSpan(s: string, d: char, j: nat, sp: seq<Span>, sq: seq<Span>, k: nat)
    requires WellFormed(s, d, j, sp) && WellFormed(s, d, j, sq)
    requires k < |sp| && k < |sq|
    ensures sp[k] == sq[k]
    decreases k
  {
    var lo := if k == 0 then j else sp[k - 1].end;
    if k > 0 {
      WellFormedSpan(s, d, j, sp, sq, k - 1);
    }
    RunEndUnique(s, d, lo, sp[k].start, sq[k].start);
    CutEndUnique(s, d, sp[k].start, sp[k].end, sq[k].end);
  }

  /** A well-formed scan of a given length is unique: the conditions of
      `WellFormed` pin every field down. */
  lemma WellFormedUnique(s: string, d: char, j: nat, sp: seq<Span>, sq: seq<Span>)
    requires WellFormed(s, d, j, sp) && WellFormed(s, d, j, sq) && |sp| == |sq|
    ensures sp == sq
  {
    forall k | 0 <= k < |sp| ensures sp[k] == sq[k] {
      WellFormedSpan(s, d, j, sp, sq, k);
    }
  }

  /** What `split<n>` returns on success: `n` fields, each a slice of the
      line at strictly increasing, non-overlapping positions (a well-formed
      scan), none holding the delimiter or NUL, all but the last non-empty. */
  lemma SplitFields(s: string, d: char, n: nat)
    ensures SplitSpec(s, d, n).Some? <==> |FieldSpans(s, d, 0)| >= n
    ensures SplitSpec(s, d, n).Some? ==>
              var fs := SplitSpec(s, d, n).value;
              && |fs| == n
              && (forall k | 0 <= k < n :: d !in fs[k] && NUL !in fs[k])
              && (forall k | 0 <= k < n - 1 :: fs[k] != [])
              && (exists sp :: |sp| == n && WellFormed(s, d, 0, sp) && fs == Texts(s, sp))
              && (forall sp | |sp| == n && WellFormed(s, d, 0, sp) :: fs == Texts(s, sp))
  {
    var all := FieldSpans(s, d, 0);
    FieldSpansWellFormed(s, d, 0);
    if |all| >= n {
      var sp := all[..n];
      WellFormedPrefix(s, d, 0, all, n);
      var fs := Texts(s, sp);
      forall k | 0 <= k < n - 1 ensures fs[k] != [] {
        assert sp[k].start < sp[k].end <= |s|;
      }
      forall sq | |sq| == n && WellFormed(s, d, 0, sq) ensures fs == Texts(s, sq) {
        WellFormedUnique(s, d, 0, sp, sq);
      }
    }
  }

  /** More tokens than the arity: the first `m` fields are those of a larger
      arity's prefix, and a failure persists for every larger arity. */
  lemma SplitPrefix(s: string, d: char, m: nat, n: nat)
    requires m <= n
    ensures SplitSpec(s, d, n).Some? ==> SplitSpec(s, d, m) == Some(SplitSpec(s, d, n).value[..m])
    ensures SplitSpec(s, d, m).None? ==> SplitSpec(s, d, n).None?
  {
    var sp := FieldSpans(s, d, 0);
    if |sp| >= n {
      assert sp[..n][..m] == sp[..m];
      assert Texts(s, sp[..n])[..m] == Texts(s, sp[..m]);
    }
  }

  /** An empty line, or one that starts with NUL or '\n', has no fields. */
  lemma SplitNothing(s: string, d: char, n: nat)
    requires s == [] || s[0] == NUL || s[0] == '\n'
    ensures FieldSpans(s, d, 0) == []
    ensures SplitSpec(s, d, n) == if n == 0 then Some([]) else None
  {
  }

  /** A non-empty run of delimiters alone, with no terminator, is one
      empty field. */
  lemma {:induction false} SplitOnlyDelims(s: string, d: char)
    requires |s| > 0 && d != NUL && d != '\n'
    requires forall x | 0 <= x < |s| :: s[x] == d
    ensures FieldSpans(s, d, 0) == [Span(|s|, |s|)]
    ensures SplitSpec(s, d, 1) == Some([""])
    ensures SplitSpec(s, d, 2) == None
  {
    SkipDelimsAt(s, d, 0, |s|);
    assert FieldSpans(s, d, 0) == [Span(|s|, |s|)];
    assert FieldSpans(s, d, 0)[..1] == [Span(|s|, |s|)];
    assert |Text(s, Span(|s|, |s|))| == 0;
    assert Texts(s, [Span(|s|, |s|)]) == [""];
  }

  /** `find_delim_or_null` stops at the first delimiter or NUL. */
  lemma {:induction false} FindDelimOrNullAt(s: string, d: char, start: nat, p: nat)
    requires start <= p < |s| && (s[p] == d || s[p] == NUL)
    requires forall x | start <= x < p :: s[x] != d && s[x] != NUL
    ensures FindDelimOrNull(s, d, start) == Some(p)
    decreases p - start
  {
    if start < p {
      FindDelimOrNullAt(s, d, start + 1, p);
    }
  }

  /** With '\n' as delimiter (the whole-line read), a non-empty line ending
      in '\n' or NUL is one field: the text before the terminator. */
  lemma WholeLine(l: string, c: char, t: string)
    requires l != [] && '\n' !in l && NUL !in l
    requires c == '\n' || c == NUL
    ensures FieldSpans(l + [c] + t, '\n', 0) == [Span(0, |l|)]
    ensures SplitSpec(l + [c] + t, '\n', 1) == Some([l])
  {
    var s := l + [c] + t;
    assert s[0] == l[0];
    assert SkipDelims(s, '\n', 0) == 0;
    assert forall x | 0 <= x < |l| :: s[x] == l[x];
    FindDelimOrNullAt(s, '\n', 0, |l|);
    assert FieldSpans(s, '\n', 0) == [Span(0, |l|)];
    assert s[0..|l|] == l;
    assert FieldSpans(s, '\n', 0)[..1] == [Span(0, |l|)];
    assert Texts(s, [Span(0, |l|)]) == [l];
  }

  /** A single word: text holding neither the delimiter nor NUL, not
      starting with '\n', splits into itself alone. */
  lemma SplitOneWord(w: string, d: char)
    requires w != [] && w[0] != '\n' && d !in w && NUL !in w
    ensures FieldSpans(w, d, 0) == [Span(0, |w|)]
    ensures SplitSpec(w, d, 1) == Some([w])
    ensures SplitSpec(w, d, 2) == None
  {
    assert SkipDelims(w, d, 0) == 0;
    assert FindDelimOrNull(w, d, 0).None?;
    assert FieldSpans(w, d, 0)[..1] == [Span(0, |w|)];
    assert w[0..|w|] == w;
    assert Texts(w, [Span(0, |w|)]) == [w];
  }

  /** The skip step does not see past a NUL that is not the delimiter. */
  lemma {:induction false} SkipDelimsPadded(s: string, t: string, d: char, j: nat)
    requires d != NUL && j <= |s|
    ensures SkipDelims(s + [NUL] + t, d, j) == SkipDelims(s, d, j)
    decreases |s| - j
  {
    var s' := s + [NUL] + t;
    if j < |s| {
      assert s'[j] == s[j];
      if s[j] == d {
        SkipDelimsPadded(s, t, d, j + 1);
      }
    } else {
      assert s'[j] == NUL;
    }
  }

  /** The search finds the padding NUL where the unpadded one runs out. */
  lemma {:induction false} FindDelimOrNullPadded(s: string, t: string, d: char, start: nat)
    requires start <= |s|
    ensures FindDelimOrNull(s + [NUL] + t, d, start)
            == if FindDelimOrNull(s, d, start).Some? then FindDelimOrNull(s, d, start) else Some(|s|)
    decreases |s| - start
  {
    var s' := s + [NUL] + t;
    if start < |s| {
      assert s'[start] == s[start];
      if s[start] != d && s[start] != NUL {
        FindDelimOrNullPadded(s, t, d, start + 1);
      }
    } else {
      assert s'[start] == NUL;
    }
  }

  /** The scan ends at the first NUL: whatever follows it (the zero-filled
      rest of the line buffer, or stale bytes) changes no span. */
  lemma {:induction false} FieldSpansPadded(s: string, t: string, d: char, j: nat)
    requires d != NUL && j <= |s|
    ensures FieldSpans(s + [NUL] + t, d, j) == FieldSpans(s, d, j)
    decreases |s| - j
  {
    var s' := s + [NUL] + t;
    if j < |s| {
      assert s'[j] == s[j];
      if s[j] != NUL && s[j] != '\n' {
        var a := SkipDelims(s, d, j);
        SkipDelimsPadded(s, t, d, j);
        FindDelimOrNullPadded(s, t, d, a);
        var p := FindDelimOrNull(s, d, a);
        if p.Some? {
          assert s'[p.value] == s[p.value];
          if s[p.value] != NUL && s[p.value] != '\n' {
            FieldSpansPadded(s, t, d, p.value + 1);
          }
        } else {
          assert s'[|s|] == NUL;
        }
      }
    } else {
      assert s'[j] == NUL;
    }
  }

  /** `split` sees a line the same with or without trailing NUL padding. */
  lemma SplitPadded(s: string, t: string, d: char, n: nat)
    requires d != NUL
    ensures SplitSpec(s + [NUL] + t, d, n) == SplitSpec(s, d, n)
  {
    var s' := s + [NUL] + t;
    var sp := FieldSpans(s, d, 0);
    FieldSpansPadded(s, t, d, 0);
    FieldSpansWellFormed(s, d, 0);
    if |sp| >= n {
      forall k | 0 <= k < n ensures Text(s', sp[k]) == Text(s, sp[k]) {
        assert sp[k].end <= |s|;
        assert s'[sp[k].start..sp[k].end] == s[sp[k].start..sp[k].end];
      }
      assert Texts(s', sp[..n]) == Texts(s, sp[..n]);
    }
  }

  /** Delimiter runs are skipped, so leading and repeated blanks produce no
      empty fields. */
  lemma SplitSkipsRuns()
    ensures SplitSpec("  1   2  3", ' ', 3) == Some(["1", "2", "3"])
  {
    var s := "  1   2  3";
    SkipDelimsAt(s, ' ', 8, 9);
    assert FieldSpans(s, ' ', 8) == [Span(9, 10)];
    SkipDelimsAt(s, ' ', 4, 6);
    FindDelimOrNullAt(s, ' ', 6, 7);
    assert FieldSpans(s, ' ', 4) == [Span(6, 7)] + FieldSpans(s, ' ', 8);
    SkipDelimsAt(s, ' ', 0, 2);
    FindDelimOrNullAt(s, ' ', 2, 3);
    assert FieldSpans(s, ' ', 0) == [Span(2, 3)] + FieldSpans(s, ' ', 4);
    var sp := [Span(2, 3), Span(6, 7), Span(9, 10)];
    assert FieldSpans(s, ' ', 0)[..3] == sp;
    assert Text(s, sp[0]) == "1" && Text(s, sp[1]) == "2" && Text(s, sp[2]) == "3";
    assert Texts(s, sp) == ["1", "2", "3"];
  }

  /** A '\n' that is not the delimiter ends the scan only where a field
      would start: the last field of a newline-terminated line keeps its
      '\n', up to the NUL padding. */
  lemma SplitKeepsNewline(t: string)
    ensures SplitSpec("1 2\n" + [NUL] + t, ' ', 2) == Some(["1", "2\n"])
    ensures SplitSpec("1 2\n" + [NUL] + t, ' ', 3) == None
  {
    var s := "1 2\n";
    SplitPadded(s, t, ' ', 2);
    SplitPadded(s, t, ' ', 3);
    assert FieldSpans(s, ' ', 2) == [Span(2, 4)];
    FindDelimOrNullAt(s, ' ', 0, 1);
    assert FieldSpans(s, ' ', 0) == [Span(0, 1)] + FieldSpans(s, ' ', 2);
    var sp := [Span(0, 1), Span(2, 4)];
    assert FieldSpans(s, ' ', 0)[..2] == sp;
    assert Text(s, sp[0]) == "1" && Text(s, sp[1]) == "2\n";
    assert Texts(s, sp) == ["1", "2\n"];
  }
}
