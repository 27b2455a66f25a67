/** `parse<T>` and the two aggregations over the fields of a line:
    `parse_into_tuple` (heterogeneous) and `parse_array` (homogeneous). */
module Parser {
  import opened Common
  import opened DefaultParser

  /** The `CustomParser<T>` specializations a program declares: for each
      type, its `parse` member, if any. */
  type Registry = FieldType -> Option<string -> Result<Val>>

  /** A custom parser for `t`, if declared, yields values of type `t`: the
      C++ signature `Result<T> parse(Str)` guarantees it. */
  ghost predicate Typed(reg: Registry, t: FieldType)
  {
    reg(t).Some? ==> forall s: string :: reg(t).value(s).HasValue() ==> HasType(reg(t).value(s).value, t)
  }

  /** No custom parser at all. */
  function NoCustom(): Registry
  {
    (t: FieldType) => None
  }

  /** The `Parseable` concept: a custom or a default parser exists. */
  predicate Parseable(reg: Registry, t: FieldType)
  {
    reg(t).Some? || HasDefault(t)
  }

  /** `parse<T>(str)`: the custom parser when one exists, otherwise the
      default one. A value has the field's type whenever the custom parser
      is typed, and without a custom parser every error is a parse error. */
  function Parse(reg: Registry, t: FieldType, s: string): (r: Result<Val>)
    requires Parseable(reg, t)
    ensures Typed(reg, t) && r.HasValue() ==> HasType(r.value, t)
    ensures reg(t).None? && !r.HasValue() ==> IsParseError(r.error)
  {
    if reg(t).Some? then reg(t).value(s) else DefaultParse(t, s)
  }

  /** The custom parser wins whenever it exists, so the default one is used
      exactly for types that have no custom parser, never both. */
  lemma ParseChooses(reg: Registry, t: FieldType, s: string)
    requires Parseable(reg, t)
    ensures reg(t).Some? ==> Parse(reg, t, s) == reg(t).value(s)
    ensures reg(t).None? ==> HasDefault(t) && Parse(reg, t, s) == DefaultParse(t, s)
  {
  }

  /** `reg` with a custom parser for `t` declared. */
  function Declare(reg: Registry, t: FieldType, p: string -> Result<Val>): (reg': Registry)
    ensures reg'(t) == Some(p)
    ensures forall u :: u != t ==> reg'(u) == reg(u)
  {
    (u: FieldType) => if u == t then Some(p) else reg(u)
  }

  /** Declaring `CustomParser<T>` overrides even a built-in type's default
      parser, and changes how no other type is parsed. */
  lemma DeclareOverrides(reg: Registry, t: FieldType, p: string -> Result<Val>, u: FieldType, s: string)
    requires Parseable(reg, u)
    ensures Parseable(Declare(reg, t, p), t) && Parse(Declare(reg, t, p), t, s) == p(s)
    ensures Parseable(Declare(reg, t, p), u)
    ensures u != t ==> Parse(Declare(reg, t, p), u, s) == Parse(reg, u, s)
  {
  }

  // ---------------------------------------------------------- aggregation

  /** Every field's type can be parsed. */
  predicate AllParseable(reg: Registry, types: seq<FieldType>)
  {
    forall k | 0 <= k < |types| :: Parseable(reg, types[k])
  }

  /** The tuple of per-field results `{ parse<Ts>(values[Is])... }`. */
  function Collect(reg: Registry, types: seq<FieldType>, fields: seq<string>): (rs: seq<Result<Val>>)
    requires |types| == |fields| && AllParseable(reg, types)
    ensures |rs| == |fields|
    ensures forall k | 0 <= k < |fields| :: rs[k] == Parse(reg, types[k], fields[k])
  {
    seq(|fields|, k requires 0 <= k < |fields| => Parse(reg, types[k], fields[k]))
  }

  /** `n` copies of one type: the element types of `Arr<T, N>`. */
  function Repeat(t: FieldType, n: nat): (ts: seq<FieldType>)
    ensures |ts| == n && forall k | 0 <= k < n :: ts[k] == t
  {
    seq(n, _ => t)
  }

  /** The index of the first failing result, or `|rs|` when none fails. */
  function FirstFailure(rs: seq<Result<Val>>): (i: nat)
    ensures i <= |rs|
    ensures forall k | 0 <= k < i :: rs[k].HasValue()
    ensures i < |rs| ==> !rs[i].HasValue()
  {
    if |rs| == 0 then 0
    else if !rs[0].HasValue() then 0
    else 1 + FirstFailure(rs[1..])
  }

  /** The values of results that all succeeded. */
  function Values(rs: seq<Result<Val>>): (vs: seq<Val>)
    requires forall k | 0 <= k < |rs| :: rs[k].Value?
    ensures |vs| == |rs| && forall k | 0 <= k < |rs| :: vs[k] == rs[k].value
  {
    seq(|rs|, k requires 0 <= k < |rs| => rs[k].value)
  }

  /** The aggregated result: the error of the first failing field, or all
      the values; an error carries no partial values. */
  function Aggregate(rs: seq<Result<Val>>): (r: Result<seq<Val>>)
  {
    var i := FirstFailure(rs);
    if i < |rs| then Failure(rs[i].error) else Value(Values(rs))
  }

  /** Success exactly when every field parses, component `k` then being
      field `k`'s value; otherwise the error of the lowest-index failing
      field. */
  lemma AggregateSpec(rs: seq<Result<Val>>)
    ensures Aggregate(rs).HasValue() <==> forall k | 0 <= k < |rs| :: rs[k].HasValue()
    ensures Aggregate(rs).HasValue() ==>
              |Aggregate(rs).value| == |rs| && forall k | 0 <= k < |rs| :: Aggregate(rs).value[k] == rs[k].value
    ensures !Aggregate(rs).HasValue() ==>
              exists i | 0 <= i < |rs| :: !rs[i].HasValue() && Aggregate(rs).error == rs[i].error
                                          && forall k | 0 <= k < i :: rs[k].HasValue()
  {
    var i := FirstFailure(rs);
    if i < |rs| {
      assert !rs[i].HasValue();
    }
  }

  /** The first failing index of a prefix extended by one result. */
  lemma {:induction false} FirstFailureSnoc(rs: seq<Result<Val>>, x: Result<Val>)
    ensures FirstFailure(rs + [x]) == if FirstFailure(rs) < |rs| || !x.HasValue() then FirstFailure(rs) else |rs| + 1
  {
    if |rs| > 0 {
      assert (rs + [x])[1..] == rs[1..] + [x];
      FirstFailureSnoc(rs[1..], x);
    }
  }

  /** `parse_into_tuple<Ts...>(values)`: parses every field in index order,
      even after one has failed, then walks the results in index order
      keeping the first error. `calls` counts the parser invocations. */
  method ParseIntoTuple(reg: Registry, types: seq<FieldType>, fields: seq<string>)
    returns (r: Result<seq<Val>>, calls: nat)
    requires |types| == |fields| && AllParseable(reg, types)
    ensures r == Aggregate(Collect(reg, types, fields))
    ensures calls == |fields|
  {
    var results: seq<Result<Val>> := [];
    calls := 0;
    for k := 0 to |fields|
      invariant calls == k && results == Collect(reg, types, fields)[..k]
    {
      results := results + [Parse(reg, types[k], fields[k])];
      calls := calls + 1;
    }
    assert results == Collect(reg, types, fields);
    var error: Option<Error> := None;
    for k := 0 to |results|
      invariant var i := FirstFailure(results[..k]);
                error == if i < k then Some(results[i].error) else None
    {
      FirstFailureSnoc(results[..k], results[k]);
      assert results[..k + 1] == results[..k] + [results[k]];
      if error.None? && !results[k].HasValue() {
        error := Some(results[k].error);
      }
    }
    assert results[..|results|] == results;
    if error.Some? {
      return Failure(error.value), calls;
    }
    return Value(Values(results)), calls;
  }

  /** `parse_array<T, N>(values)`: parses the fields in order and returns at
      the first failure, parsing no later field. */
  method ParseArray(reg: Registry, t: FieldType, fields: seq<string>)
    returns (r: Result<seq<Val>>, calls: nat)
    requires Parseable(reg, t)
    ensures r == Aggregate(Collect(reg, Repeat(t, |fields|), fields))
    ensures calls == var i := FirstFailure(Collect(reg, Repeat(t, |fields|), fields));
                     if i < |fields| then i + 1 else |fields|
  {
    ghost var rs := Collect(reg, Repeat(t, |fields|), fields);
    var values: seq<Val> := [];
    calls := 0;
    for i := 0 to |fields|
      invariant calls == i && FirstFailure(rs[..i]) == i
      invariant values == Values(rs[..i])
    {
      var result := Parse(reg, t, fields[i]);
      calls := calls + 1;
      FirstFailureSnoc(rs[..i], rs[i]);
      assert rs[..i + 1] == rs[..i] + [rs[i]];
      if !result.HasValue() {
        FirstFailurePrefix(rs, i + 1);
        return Failure(result.error), calls;
      }
      values := values + [result.value];
    }
    assert rs[..|fields|] == rs;
    return Value(values), calls;
  }

  /** A failure within a prefix is the first failure of the whole. */
  lemma {:induction false} FirstFailurePrefix(rs: seq<Result<Val>>, n: nat)
    requires n <= |rs| && FirstFailure(rs[..n]) < n
    ensures FirstFailure(rs) == FirstFailure(rs[..n])
  {
    if |rs| > 0 && rs[0].HasValue() {
      assert rs[..n][1..] == rs[1..][..n - 1];
      FirstFailurePrefix(rs[1..], n - 1);
    }
  }
}
