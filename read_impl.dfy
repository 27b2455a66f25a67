/** `read_impl`: the pipeline every read goes through. Check the error
    indicator of stdin, write the prompt, read one line, split it into as
    many fields as values are wanted, and parse the fields. */
module ReadImpl {
  import opened Common
  import opened Util
  import opened DefaultParser
  import opened Parser
  import opened LineReader

  /** `stdout`: everything written to it so far. */
  class Sink {
    var written: seq<char>

    constructor ()
      ensures written == []
    {
      written := [];
    }
  }

  /** The characters `std::fwrite` writes for an optional prompt. */
  function Prompted(prompt: Option<string>): seq<char>
  {
    if prompt.Some? then prompt.value else []
  }

  /** `std::fwrite(prompt->data(), 1, prompt->size(), stdout)`, done only
      when there is a prompt. */
  method WritePrompt(stdout: Sink, prompt: Option<string>)
    modifies stdout
    ensures stdout.written == old(stdout.written) + Prompted(prompt)
  {
    if prompt.Some? {
      stdout.written := stdout.written + prompt.value;
    }
  }

  /** The `LineReader` handed to `read_impl`: a fresh `FgetsReader`, or the
      `BufFgetsReader` a `BufReader` owns. */
  datatype LineSource = Fresh | Buffered(reader: BufFgetsReader)

  /** The objects a readline from `src` may change besides the stream. */
  function Footprint(src: LineSource): set<object>
    reads if src.Buffered? then {src.reader} else {}
  {
    if src.Buffered? then {src.reader, src.reader.buf} else {}
  }

  /** A buffered reader's buffer has the two bytes its loop relies on. */
  predicate Ready(src: LineSource)
    reads if src.Buffered? then {src.reader} else {}
  {
    src.Buffered? ==> src.reader.buf.Length >= 2
  }

  /** The size of the zeroed buffer the next readline starts from. */
  function Capacity(src: LineSource): (n: nat)
    reads if src.Buffered? then {src.reader} else {}
    requires Ready(src)
    ensures n >= 2
  {
    if src.Buffered? then src.reader.buf.Length else InitialSize
  }

  /** `reader.readline(stream)` for either kind of reader. */
  method ReadlineFrom(src: LineSource, f: Stream) returns (line: Option<seq<char>>)
    requires Ready(src)
    modifies f, Footprint(src)
    ensures Ready(src) && Capacity(src) >= old(Capacity(src))
    ensures src.Buffered? ==> Capacity(src) == NextSize(old(f.pending), old(Capacity(src)))
    ensures src.Fresh? ==> Capacity(src) == old(Capacity(src))
    ensures f.error == old(f.error)
    ensures line == ReadlineSpec(old(f.pending), old(Capacity(src)))
    ensures f.pending == old(f.pending)[Consumed(old(f.pending), old(Capacity(src)))..]
  {
    if src.Buffered? {
      line := src.reader.Readline(f);
    } else {
      line := FgetsReadline(f);
    }
  }

  /** What `read_impl` returns once a line is available: `|types|` fields
      split off `line` at `delim`, each parsed by its type's parser. */
  function ParseLine(reg: Registry, types: seq<FieldType>, line: seq<char>, delim: char): Result<seq<Val>>
    requires AllParseable(reg, types)
  {
    match SplitSpec(line, delim, |types|)
    case None => Failure(InvalidInput)
    case Some(fields) => Aggregate(Collect(reg, types, fields))
  }

  /** What `read_impl` returns when the stream still holds `q` and the
      reader starts from a buffer of `size` bytes: end of file without a
      line, invalid input without enough fields, otherwise the aggregate
      of the field parsers. */
  function ReadSpec(reg: Registry, types: seq<FieldType>, q: seq<char>, size: nat, delim: char): Result<seq<Val>>
    requires size >= 2 && AllParseable(reg, types)
  {
    match ReadlineSpec(q, size)
    case None => Failure(EndOfFile)
    case Some(line) => ParseLine(reg, types, line, delim)
  }

  /** `read_impl<Ts...>(reader, prompt, delim)`, reading from `stream`. The
      error check is on `stdin` whatever the stream. */
  method ReadTupleImpl(stdin: Stream, stdout: Sink, stream: Stream, src: LineSource,
                       reg: Registry, types: seq<FieldType>, prompt: Option<string>, delim: char)
    returns (r: Result<seq<Val>>)
    requires |types| >= 1 && AllParseable(reg, types) && Ready(src)
    modifies stdout, stream, Footprint(src)
    ensures Ready(src) && Capacity(src) >= old(Capacity(src)) && stream.error == old(stream.error)
    ensures old(stdin.error) ==> && r == Failure(Unknown) && stdout.written == old(stdout.written)
                                 && stream.pending == old(stream.pending) && Capacity(src) == old(Capacity(src))
    ensures !old(stdin.error) ==>
              && stdout.written == old(stdout.written) + Prompted(prompt)
              && r == ReadSpec(reg, types, old(stream.pending), old(Capacity(src)), delim)
              && stream.pending == old(stream.pending)[Consumed(old(stream.pending), old(Capacity(src)))..]
              && (src.Buffered? ==> Capacity(src) == NextSize(old(stream.pending), old(Capacity(src))))
  {
    if stdin.error {
      return MakeError(Unknown);
    }
    WritePrompt(stdout, prompt);
    var line := ReadlineFrom(src, stream);
    if line.None? {
      return MakeError(EndOfFile);
    }
    var parts := Split(line.value, delim, |types|);
    if parts.Some? {
      var calls;
      r, calls := ParseIntoTuple(reg, types, parts.value);
      return r;
    }
    return MakeError(InvalidInput);
  }

  /** `read_impl<T, N>(reader, prompt, delim)`: the same pipeline with `n`
      fields of one type, parsed until the first failure. */
  method ReadArrayImpl(stdin: Stream, stdout: Sink, stream: Stream, src: LineSource,
                       reg: Registry, t: FieldType, n: nat, prompt: Option<string>, delim: char)
    returns (r: Result<seq<Val>>)
    requires n > 0 && Parseable(reg, t) && Ready(src)
    modifies stdout, stream, Footprint(src)
    ensures Ready(src) && Capacity(src) >= old(Capacity(src)) && stream.error == old(stream.error)
    ensures old(stdin.error) ==> && r == Failure(Unknown) && stdout.written == old(stdout.written)
                                 && stream.pending == old(stream.pending) && Capacity(src) == old(Capacity(src))
    ensures !old(stdin.error) ==>
              && stdout.written == old(stdout.written) + Prompted(prompt)
              && r == ReadSpec(reg, Repeat(t, n), old(stream.pending), old(Capacity(src)), delim)
              && stream.pending == old(stream.pending)[Consumed(old(stream.pending), old(Capacity(src)))..]
              && (src.Buffered? ==> Capacity(src) == NextSize(old(stream.pending), old(Capacity(src))))
  {
    if stdin.error {
      return MakeError(Unknown);
    }
    WritePrompt(stdout, prompt);
    var line := ReadlineFrom(src, stream);
    if line.None? {
      return MakeError(EndOfFile);
    }
    var parts := Split(line.value, delim, n);
    if parts.Some? {
      var calls;
      r, calls := ParseArray(reg, t, parts.value);
      return r;
    }
    return MakeError(InvalidInput);
  }

  // ------------------------------------------------------------- properties

  /** Every type has a built-in parser. */
  predicate AllDefault(types: seq<FieldType>)
  {
    forall k | 0 <= k < |types| :: HasDefault(types[k])
  }

  /** A successful read holds one value per type, each of its type. */
  lemma ReadTypedValues(reg: Registry, types: seq<FieldType>, q: seq<char>, size: nat, delim: char)
    requires size >= 2 && AllParseable(reg, types)
    requires forall k | 0 <= k < |types| :: Typed(reg, types[k])
    ensures var r := ReadSpec(reg, types, q, size, delim);
            r.HasValue() ==> |r.value| == |types| && forall k | 0 <= k < |types| :: HasType(r.value[k], types[k])
  {
    if q != [] {
      var line := ReadlineSpec(q, size).value;
      var fields := SplitSpec(line, delim, |types|);
      if fields.Some? {
        var rs := Collect(reg, types, fields.value);
        AggregateSpec(rs);
        forall k | 0 <= k < |types|
          ensures rs[k].HasValue() ==> HasType(rs[k].value, types[k])
        {
          assert rs[k] == Parse(reg, types[k], fields.value[k]);
        }
      }
    }
  }

  /** A successful read has one value per type. */
  predicate ReadArity(reg: Registry, types: seq<FieldType>, q: seq<char>, size: nat, delim: char)
    requires size >= 2 && AllParseable(reg, types)
  {
    ReadSpec(reg, types, q, size, delim).HasValue() ==> |ReadSpec(reg, types, q, size, delim).value| == |types|
  }

  lemma ReadArityHolds(reg: Registry, types: seq<FieldType>, q: seq<char>, size: nat, delim: char)
    requires size >= 2 && AllParseable(reg, types)
    ensures ReadArity(reg, types, q, size, delim)
  {
    if q != [] {
      var fields := SplitSpec(ReadlineSpec(q, size).value, delim, |types|);
      if fields.Some? {
        AggregateSpec(Collect(reg, types, fields.value));
      }
    }
  }

  /** The single value of a one-field read, or its error: `std::get<0>` of
      the tuple on success, the same error otherwise. */
  function Unwrap(r: Result<seq<Val>>): (u: Result<Val>)
    requires r.HasValue() ==> |r.value| == 1
    ensures u.HasValue() == r.HasValue()
    ensures r.HasValue() ==> [u.value] == r.value
    ensures !r.HasValue() ==> u.error == r.error
  {
    if r.HasValue() then MakeResult(r.value[0]) else MakeError(r.error)
  }

  /** With nothing left to read the result is end of file, whatever the
      types and the parsers. */
  lemma ReadAtEnd(reg: Registry, types: seq<FieldType>, size: nat, delim: char)
    requires size >= 2 && AllParseable(reg, types)
    ensures ReadSpec(reg, types, [], size, delim) == Failure(EndOfFile)
  {
  }

  /** With the built-in parsers only, an error names the stage that
      failed: end of file exactly when the stream is exhausted, otherwise a
      parse error; never `Unknown`, which only the stdin check gives. A
      success holds one value of the right type per field. */
  lemma ReadDefaultStages(types: seq<FieldType>, q: seq<char>, size: nat, delim: char)
    requires size >= 2 && AllDefault(types)
    ensures AllParseable(NoCustom(), types)
    ensures var r := ReadSpec(NoCustom(), types, q, size, delim);
            && (!r.HasValue() ==> (r.error == EndOfFile <==> q == []))
            && (!r.HasValue() && q != [] ==> IsParseError(r.error))
            && (r.HasValue() ==> |r.value| == |types| && forall k | 0 <= k < |types| :: HasType(r.value[k], types[k]))
  {
    var reg := NoCustom();
    var r := ReadSpec(reg, types, q, size, delim);
    if q != [] {
      var line := ReadlineSpec(q, size).value;
      var fields := SplitSpec(line, delim, |types|);
      if fields.Some? {
        var rs := Collect(reg, types, fields.value);
        AggregateSpec(rs);
        forall k | 0 <= k < |types|
          ensures !rs[k].HasValue() ==> IsParseError(rs[k].error)
          ensures rs[k].HasValue() ==> HasType(rs[k].value, types[k])
        {
          assert rs[k] == Parse(reg, types[k], fields.value[k]);
        }
      }
    }
  }

  /** A line free of NUL: what is read depends only on the line itself and
      not on the buffer size, so the fresh 256-byte reader and a buffered
      reader of any size agree, and both consume exactly that line. */
  lemma ReadCleanLine(reg: Registry, types: seq<FieldType>, q: seq<char>, size: nat, delim: char)
    requires size >= 2 && AllParseable(reg, types) && delim != NUL
    requires q != [] && CleanLine(q)
    ensures ReadSpec(reg, types, q, size, delim) == ParseLine(reg, types, q[..LineLength(q)], delim)
    ensures Consumed(q, size) == LineLength(q)
  {
    LineView(q, size);
    var r := Fill(q, size, 0);
    SplitPadded(q[..LineLength(q)], Zeros(r.size - r.consumed - 1), delim, |types|);
  }

  /** Reading the same clean line with two reader capacities gives the same
      result and leaves the same input behind. */
  lemma ReadCapacityIrrelevant(reg: Registry, types: seq<FieldType>, q: seq<char>, s1: nat, s2: nat, delim: char)
    requires s1 >= 2 && s2 >= 2 && AllParseable(reg, types) && delim != NUL
    requires q != [] && CleanLine(q)
    ensures ReadSpec(reg, types, q, s1, delim) == ReadSpec(reg, types, q, s2, delim)
    ensures Consumed(q, s1) == Consumed(q, s2)
  {
    ReadCleanLine(reg, types, q, s1, delim);
    ReadCleanLine(reg, types, q, s2, delim);
  }

  /** A last line of blanks without '\n' reaches the `char` parser as an
      empty field, outside the domain of the parser as written; the
      corrected parser turns it into invalid input. */
  lemma ReadCharOfBlanks(size: nat)
    requires size >= 2
    ensures var line := ReadlineSpec("  ", size);
            && line.Some? && SplitSpec(line.value, ' ', 1) == Some([""])
            && |SplitSpec(line.value, ' ', 1).value[0]| == 0
    ensures ReadSpec(NoCustom(), [CharT], "  ", size, ' ') == Failure(InvalidInput)
  {
    var q := "  ";
    LineLengthAll(q);
    LineView(q, size);
    var r := Fill(q, size, 0);
    assert q[..2] == q;
    SplitPadded(q, Zeros(r.size - r.consumed - 1), ' ', 1);
    SplitOnlyDelims(q, ' ');
    var rs := Collect(NoCustom(), [CharT], [""]);
    assert rs == [Failure(InvalidInput)];
    assert FirstFailure(rs) == 0;
  }

  /** Reading one `bool` from the line "true\n": the last field keeps the
      '\n' and is rejected, while "1\n" is accepted. */
  lemma ReadBoolLine(size: nat, t: seq<char>)
    requires size >= 2
    ensures ReadSpec(NoCustom(), [BoolT], "true\n" + t, size, ' ') == Failure(InvalidInput)
    ensures ReadSpec(NoCustom(), [BoolT], "1\n" + t, size, ' ') == Value([BoolV(true)])
  {
    var q := "true\n" + t;
    assert q == "true" + ['\n'] + t;
    LineLengthOf("true", t);
    ReadCleanLine(NoCustom(), [BoolT], q, size, ' ');
    assert q[..5] == "true\n";
    LineReadTrue();
    var q' := "1\n" + t;
    assert q' == "1" + ['\n'] + t;
    LineLengthOf("1", t);
    ReadCleanLine(NoCustom(), [BoolT], q', size, ' ');
    assert q'[..2] == "1\n";
    LineReadOne();
  }

  lemma LineReadTrue()
    ensures ParseLine(NoCustom(), [BoolT], "true\n", ' ') == Failure(InvalidInput)
  {
    SplitOneWord("true\n", ' ');
    BoolRejects();
    var rs := Collect(NoCustom(), [BoolT], ["true\n"]);
    assert rs == [Failure(InvalidInput)];
    assert FirstFailure(rs) == 0;
  }

  lemma LineReadOne()
    ensures ParseLine(NoCustom(), [BoolT], "1\n", ' ') == Value([BoolV(true)])
  {
    SplitOneWord("1\n", ' ');
    var rs := Collect(NoCustom(), [BoolT], ["1\n"]);
    assert rs == [Value(BoolV(true))];
    assert FirstFailure(rs[1..]) == 0;
    assert FirstFailure(rs) == 1;
    assert Values(rs) == [BoolV(true)];
  }

  /** Reading a whole line (delimiter '\n') yields the line without its
      '\n', spaces and all. */
  lemma ReadWholeLine(l: string, t: seq<char>, size: nat)
    requires size >= 2 && l != [] && '\n' !in l && NUL !in l
    ensures ReadSpec(NoCustom(), [StringT], l + ['\n'] + t, size, '\n') == Value([StrV(l)])
  {
    var q := l + ['\n'] + t;
    LineLengthOf(l, t);
    assert q[..|l| + 1] == l + ['\n'];
    ReadCleanLine(NoCustom(), [StringT], q, size, '\n');
    WholeLine(l, '\n', []);
    assert l + ['\n'] + [] == l + ['\n'];
    var rs := Collect(NoCustom(), [StringT], [l]);
    assert rs == [Value(StrV(l))];
    assert FirstFailure(rs[1..]) == 0;
    assert Values(rs) == [StrV(l)];
  }

  /** An empty line has no field, so even a whole-line read of it is
      invalid input. */
  lemma ReadEmptyLine(t: seq<char>, size: nat)
    requires size >= 2
    ensures ReadSpec(NoCustom(), [StringT], ['\n'] + t, size, '\n') == Failure(InvalidInput)
  {
    var q := ['\n'] + t;
    LineLengthOf([], t);
    assert [] + ['\n'] + t == q;
    assert q[..1] == ['\n'];
    ReadCleanLine(NoCustom(), [StringT], q, size, '\n');
    SplitNothing(['\n'], '\n', 1);
  }
}
