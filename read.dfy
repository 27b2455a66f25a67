/** The free `read` overloads: each reads one line from stdin with a fresh
    `FgetsReader`, so every call starts from a 256-byte buffer. */
module Read {
  import opened Common
  import opened DefaultParser
  import opened Parser
  import opened LineReader
  import opened ReadImpl

  /** `read<Ts...>(prompt, delim)` for two or more types. */
  method ReadTuple(stdin: Stream, stdout: Sink, reg: Registry, types: seq<FieldType>,
                   prompt: Option<string>, delim: char)
    returns (r: Result<seq<Val>>)
    requires |types| > 1 && AllParseable(reg, types)
    modifies stdin, stdout
    ensures stdin.error == old(stdin.error)
    ensures old(stdin.error) ==> && r == Failure(Unknown) && stdout.written == old(stdout.written)
                                 && stdin.pending == old(stdin.pending)
    ensures !old(stdin.error) ==>
              && stdout.written == old(stdout.written) + Prompted(prompt)
              && r == ReadSpec(reg, types, old(stdin.pending), InitialSize, delim)
              && stdin.pending == old(stdin.pending)[Consumed(old(stdin.pending), InitialSize)..]
  {
    r := ReadTupleImpl(stdin, stdout, stdin, Fresh, reg, types, prompt, delim);
  }

  /** `read<T>(prompt, delim)`: the one-field pipeline, its single value
      taken out of the tuple, or its error passed on. */
  method ReadOne(stdin: Stream, stdout: Sink, reg: Registry, t: FieldType,
                 prompt: Option<string>, delim: char)
    returns (r: Result<Val>)
    requires Parseable(reg, t)
    modifies stdin, stdout
    ensures stdin.error == old(stdin.error)
    ensures old(stdin.error) ==> && r == Failure(Unknown) && stdout.written == old(stdout.written)
                                 && stdin.pending == old(stdin.pending)
    ensures !old(stdin.error) ==>
              && stdout.written == old(stdout.written) + Prompted(prompt)
              && ReadArity(reg, [t], old(stdin.pending), InitialSize, delim)
              && r == Unwrap(ReadSpec(reg, [t], old(stdin.pending), InitialSize, delim))
              && stdin.pending == old(stdin.pending)[Consumed(old(stdin.pending), InitialSize)..]
  {
    ReadArityHolds(reg, [t], stdin.pending, InitialSize, delim);
    var result := ReadTupleImpl(stdin, stdout, stdin, Fresh, reg, [t], prompt, delim);
    if result.HasValue() {
      return MakeResult(result.value[0]);
    }
    return MakeError(result.error);
  }

  /** `read(prompt)`: a whole line as a `std::string`, split at '\n'. */
  method ReadLine(stdin: Stream, stdout: Sink, reg: Registry, prompt: Option<string>)
    returns (r: Result<string>)
    requires Typed(reg, StringT)
    modifies stdin, stdout
    ensures stdin.error == old(stdin.error)
    ensures old(stdin.error) ==> && r == Failure(Unknown) && stdout.written == old(stdout.written)
                                 && stdin.pending == old(stdin.pending)
    ensures !old(stdin.error) ==>
              && stdout.written == old(stdout.written) + Prompted(prompt)
              && ReadArity(reg, [StringT], old(stdin.pending), InitialSize, '\n')
              && Map(r, (s: string) => StrV(s)) == Unwrap(ReadSpec(reg, [StringT], old(stdin.pending), InitialSize, '\n'))
              && stdin.pending == old(stdin.pending)[Consumed(old(stdin.pending), InitialSize)..]
  {
    ReadTypedValues(reg, [StringT], stdin.pending, InitialSize, '\n');
    ReadArityHolds(reg, [StringT], stdin.pending, InitialSize, '\n');
    var result := ReadTupleImpl(stdin, stdout, stdin, Fresh, reg, [StringT], prompt, '\n');
    if result.HasValue() {
      return MakeResult(result.value[0].s);
    }
    return MakeError(result.error);
  }

  /** `read<T, N>(prompt, delim)`: `n` values of one type. */
  method ReadArray(stdin: Stream, stdout: Sink, reg: Registry, t: FieldType, n: nat,
                   prompt: Option<string>, delim: char)
    returns (r: Result<seq<Val>>)
    requires n > 0 && Parseable(reg, t)
    modifies stdin, stdout
    ensures stdin.error == old(stdin.error)
    ensures old(stdin.error) ==> && r == Failure(Unknown) && stdout.written == old(stdout.written)
                                 && stdin.pending == old(stdin.pending)
    ensures !old(stdin.error) ==>
              && stdout.written == old(stdout.written) + Prompted(prompt)
              && r == ReadSpec(reg, Repeat(t, n), old(stdin.pending), InitialSize, delim)
              && stdin.pending == old(stdin.pending)[Consumed(old(stdin.pending), InitialSize)..]
  {
    r := ReadArrayImpl(stdin, stdout, stdin, Fresh, reg, t, n, prompt, delim);
  }
}
