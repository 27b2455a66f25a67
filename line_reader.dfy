/** The fgets-based line sources: `FgetsReader` (a fresh 256-byte buffer on
    every call) and `BufFgetsReader` (one buffer kept across calls), both
    growing their zero-filled buffer by doubling until a whole line fits. */
module LineReader {
  import opened Common

  /** A C stream: the characters not yet read, and its error indicator. */
  class Stream {
    var pending: seq<char>
    var error: bool

    constructor (input: seq<char>, error: bool)
      ensures pending == input && this.error == error
    {
      pending := input;
      this.error := error;
    }
  }

  /** `n` NUL characters. */
  function Zeros(n: nat): (z: seq<char>)
    ensures |z| == n
  {
    seq(n, _ => NUL)
  }

  /** The length of the first line of `p`: up to and including the first
      '\n', or all of `p` when it holds none. */
  function LineLength(p: seq<char>): (n: nat)
    ensures n <= |p|
    ensures p != [] <==> n > 0
  {
    if p == [] then 0 else if p[0] == '\n' then 1 else 1 + LineLength(p[1..])
  }

  /** The first line holds no '\n' but its last character, which is one
      unless the line runs to the end of `p`. */
  lemma {:induction false} LineLengthSpec(p: seq<char>)
    ensures forall i | 0 <= i < LineLength(p) - 1 :: p[i] != '\n'
    ensures 0 < LineLength(p) < |p| ==> p[LineLength(p) - 1] == '\n'
  {
    if p != [] && p[0] != '\n' {
      LineLengthSpec(p[1..]);
      assert forall i | 1 <= i < LineLength(p) - 1 :: p[i] == p[1..][i - 1];
    }
  }

  /** A first line ended by '\n'. */
  lemma {:induction false} LineLengthOf(l: seq<char>, t: seq<char>)
    requires '\n' !in l
    ensures LineLength(l + ['\n'] + t) == |l| + 1
  {
    if l != [] {
      assert (l + ['\n'] + t)[1..] == l[1..] + ['\n'] + t;
      LineLengthOf(l[1..], t);
    }
  }

  /** A last line without '\n' runs to the end. */
  lemma {:induction false} LineLengthAll(l: seq<char>)
    requires '\n' !in l
    ensures LineLength(l) == |l|
  {
    if l != [] {
      LineLengthAll(l[1..]);
    }
  }

  /** How many characters `fgets(s, n, f)` transfers: at most `n - 1`, and
      none after a '\n'. */
  function FgetsCount(p: seq<char>, n: nat): (k: nat)
    requires n >= 1
    ensures k <= n - 1 && k <= |p|
    ensures p != [] && n >= 2 ==> k >= 1
  {
    if LineLength(p) < n - 1 then LineLength(p) else n - 1
  }

  /** `std::fgets(buf + offset, n, f)` (section 7.21.7.2 of ISO C11): reads
      at most `n - 1` characters, stopping after a '\n', and writes a NUL
      after them; at end of file with nothing read it returns null and
      leaves the array untouched. */
  method Fgets(buf: array<char>, offset: nat, n: nat, f: Stream) returns (ok: bool)
    requires n >= 2 && offset + n <= buf.Length
    modifies buf, f
    ensures f.error == old(f.error)
    ensures ok <==> old(f.pending) != []
    ensures var k := FgetsCount(old(f.pending), n);
            && f.pending == old(f.pending)[k..]
            && (ok ==> forall i | 0 <= i < buf.Length ::
                         buf[i] == if offset <= i < offset + k then old(f.pending)[i - offset]
                                   else if i == offset + k then NUL
                                   else old(buf[i]))
            && (!ok ==> buf[..] == old(buf[..]))
  {
    var p := f.pending;
    if p == [] {
      return false;
    }
    var k := FgetsCount(p, n);
    forall i | offset <= i < offset + k {
      buf[i] := p[i - offset];
    }
    buf[offset + k] := NUL;
    f.pending := p[k..];
    return true;
  }

  /** Where a readline ends: how many input characters it consumed and the
      final buffer size. */
  datatype Filled = Filled(consumed: nat, size: nat)

  /** The loop of `readline` from a zero-padded buffer of `size` bytes whose
      first `offset` bytes hold `q[..offset]`: call `fgets` at `offset`;
      stop when the byte at `size - 2` is NUL or '\n', otherwise double the
      buffer and go on at `size - 1`, over the terminating NUL. */
  function Fill(q: seq<char>, size: nat, offset: nat): (r: Filled)
    requires 2 <= size && offset <= size - 2 && offset <= |q|
    ensures offset <= r.consumed <= |q| && r.consumed < r.size && size <= r.size
    ensures offset < |q| ==> offset < r.consumed
    decreases |q| - offset
  {
    var total := offset + FgetsCount(q[offset..], size - offset);
    if total == size - 1 && q[size - 2] != NUL && q[size - 2] != '\n' then
      Fill(q, 2 * size, size - 1)
    else
      Filled(total, size)
  }

  /** The line a readline returns: the whole buffer, the characters read
      followed by NUL padding. */
  function View(q: seq<char>, r: Filled): seq<char>
    requires r.consumed <= |q| && r.consumed <= r.size
  {
    q[..r.consumed] + Zeros(r.size - r.consumed)
  }

  /** What a readline from a zeroed buffer of `size` bytes returns on input
      `q`: nothing at end of file, otherwise the whole final buffer. */
  function ReadlineSpec(q: seq<char>, size: nat): Option<seq<char>>
    requires size >= 2
  {
    if q == [] then None else Some(View(q, Fill(q, size, 0)))
  }

  /** How many characters that readline consumes. */
  function Consumed(q: seq<char>, size: nat): nat
    requires size >= 2
  {
    if q == [] then 0 else Fill(q, size, 0).consumed
  }

  /** The buffer size that readline leaves behind: unchanged at end of file,
      otherwise the size the loop grew to. A `BufFgetsReader` starts its
      next read from it. */
  function NextSize(q: seq<char>, size: nat): (n: nat)
    requires size >= 2
    ensures size <= n
    ensures q != [] ==> Consumed(q, size) < n
  {
    if q == [] then size else Fill(q, size, 0).size
  }

  /** The buffer holds the first `c` characters of `q`, then NUL bytes. */
  predicate Holds(b: array<char>, q: seq<char>, c: nat)
    reads b
  {
    c <= |q| && c <= b.Length && forall i | 0 <= i < b.Length :: b[i] == if i < c then q[i] else NUL
  }

  /** Such a buffer, read whole, is the view of a readline that consumed
      `c` characters. */
  lemma HoldsView(b: array<char>, q: seq<char>, c: nat)
    requires Holds(b, q, c)
    ensures b[..] == View(q, Filled(c, b.Length))
  {
    var v := View(q, Filled(c, b.Length));
    forall i | 0 <= i < b.Length
      ensures b[..][i] == v[i]
    {
      if i < c {
        assert v[i] == q[..c][i];
      } else {
        assert v[i] == Zeros(b.Length - c)[i - c];
      }
    }
  }

  /** One round of the loop: with `k` characters read at `offset`, the
      byte at `size - 2` decides whether the loop is done or goes on from
      `size - 1` in a buffer twice as large. */
  lemma FillStep(q: seq<char>, size: nat, offset: nat)
    requires 2 <= size && offset <= size - 2 && offset <= |q|
    ensures var c := offset + FgetsCount(q[offset..], size - offset);
            var last := if size - 2 < c then q[size - 2] else NUL;
            if last == NUL || last == '\n' then
              Fill(q, size, offset) == Filled(c, size)
            else
              c == size - 1 && Fill(q, size, offset) == Fill(q, 2 * size, size - 1)
  {
  }

  /** One round of the loop on a buffer that holds `q[..offset]`, reading
      from the rest of `q`: `fgets` at `offset`, then the test of the byte
      at `size - 2`. Either the line is complete, `c` characters having
      been read in all, or the buffer is full and the loop goes on from
      `size - 1` in one twice as large. */
  method Round(b: array<char>, offset: nat, f: Stream, ghost q: seq<char>)
    returns (ok: bool, done: bool, ghost c: nat)
    requires 2 <= b.Length && offset <= b.Length - 2 && offset <= |q|
    requires Holds(b, q, offset) && f.pending == q[offset..]
    modifies b, f
    ensures f.error == old(f.error)
    ensures ok <==> offset < |q|
    ensures done ==> Fill(q, b.Length, offset) == Filled(c, b.Length) && Holds(b, q, c) && f.pending == q[c..]
    ensures !done ==> && b.Length - 1 <= |q| && Fill(q, b.Length, offset) == Fill(q, 2 * b.Length, b.Length - 1)
                      && Holds(b, q, b.Length - 1) && f.pending == q[b.Length - 1..]
  {
    ghost var k := FgetsCount(q[offset..], b.Length - offset);
    ok := Fgets(b, offset, b.Length - offset, f);
    assert f.pending == q[offset + k..];
    c := offset + k;
    assert Holds(b, q, c);
    FillStep(q, b.Length, offset);
    var last := b[b.Length - 2];
    done := last == NUL || last == '\n';
  }

  /** Copies a buffer into one twice as large, zero-filling the new half
      (`vector::resize(2 * size, '\0')`). */
  method Grow(b: array<char>) returns (bigger: array<char>)
    ensures fresh(bigger) && bigger.Length == 2 * b.Length
    ensures forall i | 0 <= i < bigger.Length :: bigger[i] == if i < b.Length then b[i] else NUL
  {
    bigger := new char[2 * b.Length](_ => NUL);
    forall i | 0 <= i < b.Length {
      bigger[i] := b[i];
    }
  }

  /** The loop both readers share, from a zero-filled buffer: returns false
      at end of file before any character, otherwise the final buffer,
      which is `buf` itself or a larger copy. */
  method ReadInto(buf: array<char>, f: Stream) returns (got: bool, out: array<char>)
    requires buf.Length >= 2 && buf[..] == Zeros(buf.Length)
    modifies buf, f
    ensures f.error == old(f.error)
    ensures out == buf || fresh(out)
    ensures got <==> old(f.pending) != []
    ensures !got ==> out == buf && buf[..] == Zeros(buf.Length) && f.pending == old(f.pending)
    ensures got ==> var r := Fill(old(f.pending), buf.Length, 0);
                    && out.Length == r.size && out[..] == View(old(f.pending), r)
                    && f.pending == old(f.pending)[r.consumed..]
  {
    ghost var q := f.pending;
    ghost var r := Fill(q, buf.Length, 0);
    assert forall i | 0 <= i < buf.Length :: buf[i] == buf[..][i];
    out := buf;
    var offset: nat := 0;
    var first := true;
    while true
      invariant 2 <= out.Length && offset <= out.Length - 2
      invariant out == buf || fresh(out)
      invariant first ==> offset == 0 && out == buf && out[..] == Zeros(out.Length)
      invariant !first ==> q != []
      invariant Holds(out, q, offset) && f.pending == q[offset..] && f.error == old(f.error)
      invariant Fill(q, out.Length, offset) == r
      decreases |q| - offset
    {
      var ok, done, c := Round(out, offset, f, q);
      if !ok && first {
        return false, out;
      }
      first := false;
      if done {
        HoldsView(out, q, c);
        return true, out;
      }
      offset := out.Length - 1;
      out := Grow(out);
    }
  }

  /** The buffer size `FgetsReader` starts from on every call. */
  const InitialSize: nat := 256

  /** `FgetsReader::readline`: a fresh zeroed buffer of 256 bytes. */
  method FgetsReadline(f: Stream) returns (line: Option<seq<char>>)
    modifies f
    ensures f.error == old(f.error)
    ensures line == ReadlineSpec(old(f.pending), InitialSize)
    ensures f.pending == old(f.pending)[Consumed(old(f.pending), InitialSize)..]
  {
    var buf := new char[InitialSize](_ => NUL);
    var got, out := ReadInto(buf, f);
    if !got {
      return None;
    }
    return Some(out[..]);
  }

  /** `BufFgetsReader`: a line buffer that outlives each read. */
  class BufFgetsReader {
    var buf: array<char>

    /** `BufFgetsReader(size)`: a zeroed buffer of `size` bytes. Any size
        is accepted here; only a read needs at least 2, because the loop
        reads the byte at `size - 2`. */
    constructor (size: nat)
      ensures fresh(buf) && buf.Length == size && buf[..] == Zeros(size)
    {
      buf := new char[size](_ => NUL);
    }

    /** `readline(stream)`: zero-fills the whole buffer, then runs the loop
        in it; the buffer may be replaced by a larger one, never a smaller. */
    method Readline(f: Stream) returns (line: Option<seq<char>>)
      requires buf.Length >= 2
      modifies this, buf, f
      ensures f.error == old(f.error)
      ensures line == ReadlineSpec(old(f.pending), old(buf.Length))
      ensures f.pending == old(f.pending)[Consumed(old(f.pending), old(buf.Length))..]
      ensures buf == old(buf) || fresh(buf)
      ensures buf.Length == NextSize(old(f.pending), old(buf.Length))
      ensures buf[..] == if line.Some? then line.value else Zeros(buf.Length)
    {
      forall i | 0 <= i < buf.Length {
        buf[i] := NUL;
      }
      assert buf[..] == Zeros(buf.Length);
      var got, out := ReadInto(buf, f);
      buf := out;
      if !got {
        return None;
      }
      line := Some(out[..]);
    }
  }

  // ------------------------------------------------------------- properties

  /** `size` doubled `j` times. */
  function Doubled(size: nat, j: nat): nat
  {
    if j == 0 then size else 2 * Doubled(size, j - 1)
  }

  /** The buffer only ever doubles. */
  lemma {:induction false} FillDoubles(q: seq<char>, size: nat, offset: nat)
    requires 2 <= size && offset <= size - 2 && offset <= |q|
    ensures exists j :: Fill(q, size, offset).size == Doubled(size, j)
    decreases |q| - offset
  {
    var total := offset + FgetsCount(q[offset..], size - offset);
    if total == size - 1 && q[size - 2] != NUL && q[size - 2] != '\n' {
      FillDoubles(q, 2 * size, size - 1);
      var j :| Fill(q, 2 * size, size - 1).size == Doubled(2 * size, j);
      DoubledTwice(size, j);
    } else {
      assert Fill(q, size, offset).size == Doubled(size, 0);
    }
  }

  lemma {:induction false} DoubledTwice(size: nat, j: nat)
    ensures Doubled(2 * size, j) == Doubled(size, j + 1)
  {
    if j > 0 {
      DoubledTwice(size, j - 1);
    }
  }

  /** The first line of `q` holds no NUL character. */
  predicate CleanLine(q: seq<char>)
  {
    forall i | 0 <= i < LineLength(q) :: q[i] != NUL
  }

  /** Dropping a prefix that holds no '\n' shortens the first line by it. */
  lemma {:induction false} LineLengthDrop(q: seq<char>, o: nat)
    requires o <= LineLength(q) && (o < LineLength(q) || o == |q|)
    ensures LineLength(q[o..]) == LineLength(q) - o
  {
    if o > 0 && q[0] != '\n' {
      assert q[1..][o - 1..] == q[o..];
      LineLengthDrop(q[1..], o - 1);
    }
  }

  /** On a line free of NUL the loop consumes exactly the first line,
      whatever the buffer size: the '\n' included, or to end of file. */
  lemma {:induction false} FillLine(q: seq<char>, size: nat, offset: nat)
    requires 2 <= size && offset <= size - 2 && offset <= |q|
    requires CleanLine(q)
    requires offset <= LineLength(q) && (offset < LineLength(q) || offset == |q|)
    ensures Fill(q, size, offset).consumed == LineLength(q)
    decreases |q| - offset
  {
    var n := LineLength(q);
    LineLengthSpec(q);
    LineLengthDrop(q, offset);
    var total := offset + FgetsCount(q[offset..], size - offset);
    if total < n {
      assert total == size - 1 && q[size - 2] != NUL && q[size - 2] != '\n';
    }
    if total == size - 1 && q[size - 2] != NUL && q[size - 2] != '\n' {
      FillLine(q, 2 * size, size - 1);
    }
  }

  /** A clean line comes back as its characters, '\n' included, followed by
      at least one NUL: the buffer size shows only in the padding. */
  lemma LineView(q: seq<char>, size: nat)
    requires size >= 2 && q != [] && CleanLine(q)
    ensures Consumed(q, size) == LineLength(q)
    ensures var r := Fill(q, size, 0);
            ReadlineSpec(q, size) == Some(q[..LineLength(q)] + [NUL] + Zeros(r.size - r.consumed - 1))
  {
    FillLine(q, size, 0);
    var r := Fill(q, size, 0);
    assert Zeros(r.size - r.consumed) == [NUL] + Zeros(r.size - r.consumed - 1);
    assert View(q, r) == q[..LineLength(q)] + [NUL] + Zeros(r.size - r.consumed - 1);
  }

  /** A line that fits with its NUL needs no growth. */
  lemma LineFits(q: seq<char>, size: nat)
    requires size >= 2 && LineLength(q) <= size - 2
    ensures Fill(q, size, 0) == Filled(LineLength(q), size)
  {
  }

  /** A clean final line without '\n' that fills the buffer exactly: the
      second `fgets` returns null, and the line is still returned, in a
      buffer of twice the size. */
  lemma LineFillsBuffer(q: seq<char>, size: nat)
    requires size >= 2 && |q| == size - 1 && CleanLine(q) && '\n' !in q
    ensures Fill(q, size, 0) == Filled(size - 1, 2 * size)
    ensures ReadlineSpec(q, size) == Some(q + Zeros(size + 1))
  {
    LineLengthSpec(q);
    assert LineLength(q) == |q|;
    assert q[size - 2] != NUL && q[size - 2] != '\n';
    assert q[..size - 1] == q;
  }

  /** A line holding a NUL is cut short by a small buffer: with 4 bytes the
      loop stops at the NUL it finds at `size - 2`; with 8 bytes the whole
      line fits. So what a `BufFgetsReader` reads depends on the size earlier
      reads left behind. */
  lemma NulLineCapacity()
    ensures var q := "ab" + [NUL] + "cd\n";
            && Consumed(q, 4) == 3 && NextSize(q, 4) == 4
            && Consumed(q, 8) == 6 && NextSize(q, 8) == 8
  {
    var q := "ab" + [NUL] + "cd\n";
    LineLengthOf("ab" + [NUL] + "cd", []);
    assert "ab" + [NUL] + "cd" + ['\n'] + [] == q;
    assert q[0..] == q;
  }
}
