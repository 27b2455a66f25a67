/** `BufReader`: the `read` overloads over a stream of the caller's choice
    and one `BufFgetsReader` whose buffer is kept, and only ever grown,
    from one read to the next. */
module BufRead {
  import opened Common
  import opened DefaultParser
  import opened Parser
  import opened LineReader
  import opened ReadImpl

  class BufReader {
    var stream: Stream
    const reader: BufFgetsReader

    /** The line buffer can hold the two bytes the readline loop tests. */
    predicate Valid()
      reads this, reader
    {
      reader.buf.Length >= 2
    }

    /** `BufReader(size)`: reads from stdin. Any size is accepted; the
        reads need a buffer of at least 2 bytes. */
    constructor OnStdin(stdin: Stream, size: nat)
      ensures (Valid() <==> size >= 2) && stream == stdin
      ensures fresh(reader) && fresh(reader.buf) && reader.buf.Length == size
    ensures reader.buf[..] == Zeros(size)
    {
      stream := stdin;
      reader := new BufFgetsReader(size);
    }

    /** `BufReader(stream, size)`: as `OnStdin`, on the given stream. */
    constructor (stream: Stream, size: nat)
      ensures (Valid() <==> size >= 2) && this.stream == stream
      ensures fresh(reader) && fresh(reader.buf) && reader.buf.Length == size
    ensures reader.buf[..] == Zeros(size)
    {
      this.stream := stream;
      reader := new BufFgetsReader(size);
    }

    /** `set_stream(stream)`: later reads use `s`; the buffer is kept. */
    method SetStream(s: Stream)
      modifies this
      ensures stream == s
    {
      stream := s;
    }

    /** `get_stream()`. */
    function GetStream(): (s: Stream)
      reads this
      ensures s == stream
    {
      stream
    }

    /** `read<Ts...>(prompt, delim)` for two or more types. */
    method ReadTuple(stdin: Stream, stdout: Sink, reg: Registry, types: seq<FieldType>,
                     prompt: Option<string>, delim: char)
      returns (r: Result<seq<Val>>)
      requires Valid() && |types| > 1 && AllParseable(reg, types)
      modifies stdout, stream, reader, reader.buf
      ensures Valid() && stream == old(stream) && stream.error == old(stream.error)
      ensures reader.buf.Length >= old(reader.buf.Length)
      ensures old(stdin.error) ==> && r == Failure(Unknown) && stdout.written == old(stdout.written)
                                   && reader.buf.Length == old(reader.buf.Length)
                                   && stream.pending == old(stream.pending)
      ensures !old(stdin.error) ==>
                && stdout.written == old(stdout.written) + Prompted(prompt)
                && r == ReadSpec(reg, types, old(stream.pending), old(reader.buf.Length), delim)
                && stream.pending == old(stream.pending)[Consumed(old(stream.pending), old(reader.buf.Length))..]
                && reader.buf.Length == NextSize(old(stream.pending), old(reader.buf.Length))
    {
      r := ReadTupleImpl(stdin, stdout, stream, Buffered(reader), reg, types, prompt, delim);
    }

    /** `read<T>(prompt, delim)`: one value, or the error. */
    method ReadOne(stdin: Stream, stdout: Sink, reg: Registry, t: FieldType,
                   prompt: Option<string>, delim: char)
      returns (r: Result<Val>)
      requires Valid() && Parseable(reg, t)
      modifies stdout, stream, reader, reader.buf
      ensures Valid() && stream == old(stream) && stream.error == old(stream.error)
      ensures reader.buf.Length >= old(reader.buf.Length)
      ensures old(stdin.error) ==> && r == Failure(Unknown) && stdout.written == old(stdout.written)
                                   && reader.buf.Length == old(reader.buf.Length)
                                   && stream.pending == old(stream.pending)
      ensures !old(stdin.error) ==>
                && stdout.written == old(stdout.written) + Prompted(prompt)
                && ReadArity(reg, [t], old(stream.pending), old(reader.buf.Length), delim)
                && r == Unwrap(ReadSpec(reg, [t], old(stream.pending), old(reader.buf.Length), delim))
                && stream.pending == old(stream.pending)[Consumed(old(stream.pending), old(reader.buf.Length))..]
                && reader.buf.Length == NextSize(old(stream.pending), old(reader.buf.Length))
    {
      ReadArityHolds(reg, [t], stream.pending, reader.buf.Length, delim);
      var result := ReadTupleImpl(stdin, stdout, stream, Buffered(reader), reg, [t], prompt, delim);
      if result.HasValue() {
        return MakeResult(result.value[0]);
      }
      return MakeError(result.error);
    }

    /** `read(prompt)`: a whole line as a `std::string`. */
    method ReadLine(stdin: Stream, stdout: Sink, reg: Registry, prompt: Option<string>)
      returns (r: Result<string>)
      requires Valid() && Typed(reg, StringT)
      modifies stdout, stream, reader, reader.buf
      ensures Valid() && stream == old(stream) && stream.error == old(stream.error)
      ensures reader.buf.Length >= old(reader.buf.Length)
      ensures old(stdin.error) ==> && r == Failure(Unknown) && stdout.written == old(stdout.written)
                                   && reader.buf.Length == old(reader.buf.Length)
                                   && stream.pending == old(stream.pending)
      ensures !old(stdin.error) ==>
                && stdout.written == old(stdout.written) + Prompted(prompt)
                && ReadArity(reg, [StringT], old(stream.pending), old(reader.buf.Length), '\n')
                && Map(r, (s: string) => StrV(s))
                   == Unwrap(ReadSpec(reg, [StringT], old(stream.pending), old(reader.buf.Length), '\n'))
                && stream.pending == old(stream.pending)[Consumed(old(stream.pending), old(reader.buf.Length))..]
                && reader.buf.Length == NextSize(old(stream.pending), old(reader.buf.Length))
    {
      ReadTypedValues(reg, [StringT], stream.pending, reader.buf.Length, '\n');
      ReadArityHolds(reg, [StringT], stream.pending, reader.buf.Length, '\n');
      var result := ReadTupleImpl(stdin, stdout, stream, Buffered(reader), reg, [StringT], prompt, '\n');
      if result.HasValue() {
        return MakeResult(result.value[0].s);
      }
      return MakeError(result.error);
    }

    /** `read<T, N>(prompt, delim)`: `n` values of one type. */
    method ReadArray(stdin: Stream, stdout: Sink, reg: Registry, t: FieldType, n: nat,
                     prompt: Option<string>, delim: char)
      returns (r: Result<seq<Val>>)
      requires Valid() && n > 0 && Parseable(reg, t)
      modifies stdout, stream, reader, reader.buf
      ensures Valid() && stream == old(stream) && stream.error == old(stream.error)
      ensures reader.buf.Length >= old(reader.buf.Length)
      ensures old(stdin.error) ==> && r == Failure(Unknown) && stdout.written == old(stdout.written)
                                   && reader.buf.Length == old(reader.buf.Length)
                                   && stream.pending == old(stream.pending)
      ensures !old(stdin.error) ==>
                && stdout.written == old(stdout.written) + Prompted(prompt)
                && r == ReadSpec(reg, Repeat(t, n), old(stream.pending), old(reader.buf.Length), delim)
                && stream.pending == old(stream.pending)[Consumed(old(stream.pending), old(reader.buf.Length))..]
                && reader.buf.Length == NextSize(old(stream.pending), old(reader.buf.Length))
    {
      r := ReadArrayImpl(stdin, stdout, stream, Buffered(reader), reg, t, n, prompt, delim);
    }
  }
}
