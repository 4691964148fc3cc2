/**
 * `parse_query`: the `from`/`to` range of a `GET /noise_levels` request,
 * read from the pairs of its query string.
 */
module RangeQuery {
  import opened Wrappers
  import opened Bytes
  import opened Int64
  import opened FormUrlencoded

  /** Why a query has no range: a `from`/`to` value that is not an `i64`, or no `from` at all. */
  datatype QueryError = InvalidNumber | MissingFrom

  /** The names `from` and `to`, as bytes. */
  const FROM: seq<Byte> := ['f' as int, 'r' as int, 'o' as int, 'm' as int]
  const TO: seq<Byte> := ['t' as int, 'o' as int]

  /** The names `parse_query` reads; every other name is ignored. */
  predicate IsBound(name: seq<Byte>) {
    name == FROM || name == TO
  }

  /** Every `from` and `to` pair carries a valid `i64`. */
  predicate BoundsValid(pairs: seq<Pair>) {
    forall i :: 0 <= i < |pairs| && IsBound(pairs[i].name) ==> FromDecimal(pairs[i].value).Some?
  }

  /** Position of the last pair named `name`, or -1 when no pair has that name. */
  function LastIndex(pairs: seq<Pair>, name: seq<Byte>): (k: int)
    ensures -1 <= k < |pairs|
    ensures k >= 0 ==> pairs[k].name == name
    ensures forall j :: k < j < |pairs| ==> pairs[j].name != name
  {
    if pairs == [] then -1
    else if pairs[|pairs| - 1].name == name then |pairs| - 1
    else
      var init := pairs[..|pairs| - 1];
      assert forall j :: 0 <= j < |init| ==> init[j] == pairs[j];
      LastIndex(init, name)
  }

  /** The value of the last pair named `name`, if any. */
  function LastValue(pairs: seq<Pair>, name: seq<Byte>): Option<seq<Byte>> {
    var k := LastIndex(pairs, name);
    if k < 0 then None else Some(pairs[k].value)
  }

  /**
   * The range a list of pairs denotes: none if some `from` or `to` value is
   * not an `i64` (wherever it stands), none without a `from`; otherwise the
   * last `from` and the last `to`, `to` being 0 when it is absent.
   */
  function RangeOf(pairs: seq<Pair>): (r: Result<(int, int), QueryError>)
    ensures r.Success? ==> BoundsValid(pairs) && LastValue(pairs, FROM).Some?
    ensures r.Success? ==> InRange(r.value.0) && InRange(r.value.1)
    ensures pairs == [] ==> r == Failure(MissingFrom)
  {
    if !BoundsValid(pairs) then Failure(InvalidNumber)
    else match LastValue(pairs, FROM)
      case None => Failure(MissingFrom)
      case Some(f) =>
        var to := match LastValue(pairs, TO)
          case None => 0
          case Some(t) => FromDecimal(t).value;
        Success((FromDecimal(f).value, to))
  }

  /** The range of a query string, as `parse_query` computes it. */
  function QueryRange(query: seq<Byte>): (r: Result<(int, int), QueryError>)
    ensures r.Success? ==> InRange(r.value.0) && InRange(r.value.1)
    ensures query == [] ==> r == Failure(MissingFrom)
  {
    RangeOf(Parse(query))
  }

  /** The parse of a `from`/`to` value, once a pair with that name has been seen. */
  function ParsedLast(pairs: seq<Pair>, name: seq<Byte>): Option<int> {
    match LastValue(pairs, name)
    case None => None
    case Some(v) => FromDecimal(v)
  }

  lemma {:induction false} ParsedLastStep(pairs: seq<Pair>, i: nat, name: seq<Byte>)
    requires i < |pairs|
    ensures pairs[i].name == name ==> ParsedLast(pairs[..i + 1], name) == FromDecimal(pairs[i].value)
    ensures pairs[i].name != name ==> ParsedLast(pairs[..i + 1], name) == ParsedLast(pairs[..i], name)
  {
    assert pairs[..i + 1][..i] == pairs[..i];
  }

  lemma {:induction false} BoundsValidStep(pairs: seq<Pair>, i: nat)
    requires i < |pairs| && BoundsValid(pairs[..i])
    requires IsBound(pairs[i].name) ==> FromDecimal(pairs[i].value).Some?
    ensures BoundsValid(pairs[..i + 1])
  {
    var prefix := pairs[..i + 1];
    forall j | 0 <= j < |prefix| && IsBound(prefix[j].name)
      ensures FromDecimal(prefix[j].value).Some?
    {
      if j < i {
        assert prefix[j] == pairs[..i][j];
      }
    }
  }

  lemma {:induction false} InvalidBoundSpoils(pairs: seq<Pair>, i: nat)
    requires i < |pairs| && IsBound(pairs[i].name) && FromDecimal(pairs[i].value).None?
    ensures RangeOf(pairs) == Failure(InvalidNumber)
  {
  }

  /** With every bound valid, the range is the last `from` parsed and the last `to` parsed (or 0). */
  lemma {:induction false} RangeOfValid(pairs: seq<Pair>)
    requires BoundsValid(pairs)
    ensures ParsedLast(pairs, FROM).None? ==> RangeOf(pairs) == Failure(MissingFrom)
    ensures ParsedLast(pairs, FROM).Some? ==>
              RangeOf(pairs) == Success((ParsedLast(pairs, FROM).value,
                                         if ParsedLast(pairs, TO).Some? then ParsedLast(pairs, TO).value else 0))
  {
    var f := LastIndex(pairs, FROM);
    var t := LastIndex(pairs, TO);
    if f >= 0 {
      assert IsBound(pairs[f].name);
    }
    if t >= 0 {
      assert IsBound(pairs[t].name);
    }
  }

  /** `parse_query`: split the query string into pairs, then scan them. */
  method ParseQuery(query: seq<Byte>) returns (r: Result<(int, int), QueryError>)
    ensures r == QueryRange(query)
  {
    r := ScanPairs(Parse(query));
  }

  /**
   * The loop of `parse_query`: walk the pairs in order, overwrite `from` or
   * `to` with each value parsed for it, and stop with an error at the first
   * value that does not parse; then demand `from` and default `to` to 0.
   */
  method ScanPairs(pairs: seq<Pair>) returns (r: Result<(int, int), QueryError>)
    ensures r == RangeOf(pairs)
  {
    var from: Option<int> := None;
    var to: Option<int> := None;
    var i := 0;
    assert FROM != TO by {
      assert |FROM| != |TO|;
    }
    while i < |pairs|
      invariant 0 <= i <= |pairs|
      invariant BoundsValid(pairs[..i])
      invariant from == ParsedLast(pairs[..i], FROM)
      invariant to == ParsedLast(pairs[..i], TO)
    {
      var pair := pairs[i];
      ParsedLastStep(pairs, i, FROM);
      ParsedLastStep(pairs, i, TO);
      if pair.name == FROM {
        var v := ParseI64(pair.value);
        if v.None? {
          InvalidBoundSpoils(pairs, i);
          return Failure(InvalidNumber);
        }
        from := v;
        assert from == ParsedLast(pairs[..i + 1], FROM);
        assert to == ParsedLast(pairs[..i + 1], TO);
      } else if pair.name == TO {
        var v := ParseI64(pair.value);
        if v.None? {
          InvalidBoundSpoils(pairs, i);
          return Failure(InvalidNumber);
        }
        to := v;
        assert from == ParsedLast(pairs[..i + 1], FROM);
        assert to == ParsedLast(pairs[..i + 1], TO);
      } else {
        assert from == ParsedLast(pairs[..i + 1], FROM);
        assert to == ParsedLast(pairs[..i + 1], TO);
      }
      BoundsValidStep(pairs, i);
      i := i + 1;
    }
    assert pairs[..i] == pairs;
    RangeOfValid(pairs);
    if from.None? {
      return Failure(MissingFrom);
    }
    return Success((from.value, if to.Some? then to.value else 0));
  }

  // Properties of the range a query denotes.

  /** A query with no `from` pair never yields a range. */
  lemma {:induction false} MissingFromFails(query: seq<Byte>)
    requires forall p :: p in Parse(query) ==> p.name != FROM
    ensures QueryRange(query).Failure?
  {
  }

  /** Without a `to` pair the range ends at 0, and `from` is still the last `from` given. */
  lemma {:induction false} MissingToIsZero(pairs: seq<Pair>, f: seq<Byte>)
    requires BoundsValid(pairs)
    requires LastValue(pairs, FROM) == Some(f)
    requires forall i :: 0 <= i < |pairs| ==> pairs[i].name != TO
    ensures RangeOf(pairs) == Success((FromDecimal(f).value, 0))
  {
  }

  /**
   * A `from` or `to` value that is not an `i64` spoils the whole query,
   * whatever pairs come after it.
   */
  lemma {:induction false} InvalidBoundNotRescued(head: seq<Byte>, tail: seq<Byte>, name: seq<Byte>, value: seq<Byte>)
    requires IsBound(name) && FromDecimal(value).None?
    ensures QueryRange(head + [AMPERSAND] + SerializePair(Pair(name, value)) + [AMPERSAND] + tail)
            == Failure(InvalidNumber)
  {
    var bad := SerializePair(Pair(name, value));
    ParseConcat(head + [AMPERSAND] + bad, tail);
    ParseConcat(head, bad);
    ParseSerialize([Pair(name, value)]);
    var pairs := Parse(head) + [Pair(name, value)] + Parse(tail);
    assert pairs[|Parse(head)|] == Pair(name, value);
  }

  lemma {:induction false} LastValueAppend(pairs: seq<Pair>, p: Pair, name: seq<Byte>)
    requires p.name != name
    ensures LastValue(pairs + [p], name) == LastValue(pairs, name)
  {
    assert (pairs + [p])[..|pairs|] == pairs;
  }

  lemma {:induction false} LastValueSkip(a: seq<Pair>, p: Pair, b: seq<Pair>, name: seq<Byte>)
    requires p.name != name
    ensures LastValue(a + [p] + b, name) == LastValue(a + b, name)
    decreases |b|
  {
    if b == [] {
      assert a + [p] + b == a + [p];
      assert a + b == a;
      LastValueAppend(a, p, name);
    } else {
      var last := b[|b| - 1];
      var init := b[..|b| - 1];
      assert a + [p] + b == (a + [p] + init) + [last];
      assert a + b == (a + init) + [last];
      assert (a + [p] + init + [last])[..|a + [p] + init|] == a + [p] + init;
      assert (a + init + [last])[..|a + init|] == a + init;
      LastValueSkip(a, p, init, name);
    }
  }

  /** A pair whose name is neither `from` nor `to` changes nothing, wherever it stands. */
  lemma {:induction false} OtherNamesIgnored(a: seq<Pair>, p: Pair, b: seq<Pair>)
    requires !IsBound(p.name)
    ensures RangeOf(a + [p] + b) == RangeOf(a + b)
  {
    LastValueSkip(a, p, b, FROM);
    LastValueSkip(a, p, b, TO);
    var with := a + [p] + b;
    var without := a + b;
    if BoundsValid(without) {
      forall i | 0 <= i < |with| && IsBound(with[i].name)
        ensures FromDecimal(with[i].value).Some?
      {
        if i < |a| {
          assert with[i] == without[i];
        } else if i > |a| {
          assert with[i] == without[i - 1];
        }
      }
    } else {
      var i :| 0 <= i < |without| && IsBound(without[i].name) && FromDecimal(without[i].value).None?;
      if i < |a| {
        assert with[i] == without[i];
      } else {
        assert with[i + 1] == without[i];
      }
    }
  }

  /** When a key repeats, the last valid occurrence is the one that counts. */
  lemma {:induction false} LastBoundWins(pairs: seq<Pair>, name: seq<Byte>, value: seq<Byte>)
    requires IsBound(name) && BoundsValid(pairs) && FromDecimal(value).Some?
    requires name == FROM || LastValue(pairs, FROM).Some?
    ensures RangeOf(pairs + [Pair(name, value)]).Success?
    ensures name == FROM ==> RangeOf(pairs + [Pair(name, value)]).value.0 == FromDecimal(value).value
    ensures name == TO ==> RangeOf(pairs + [Pair(name, value)]).value.1 == FromDecimal(value).value
  {
    var all := pairs + [Pair(name, value)];
    assert all[..|pairs|] == pairs;
    forall i | 0 <= i < |all| && IsBound(all[i].name)
      ensures FromDecimal(all[i].value).Some?
    {
      if i < |pairs| {
        assert all[i] == pairs[i];
      }
    }
  }

  /** A `from` pair followed by a `to` pair, both valid, denotes their two values. */
  lemma {:induction false} FromThenTo(f: seq<Byte>, t: seq<Byte>)
    requires FromDecimal(f).Some? && FromDecimal(t).Some?
    ensures RangeOf([Pair(FROM, f), Pair(TO, t)]) == Success((FromDecimal(f).value, FromDecimal(t).value))
  {
    var pairs := [Pair(FROM, f), Pair(TO, t)];
    assert FROM != TO by {
      assert |FROM| != |TO|;
    }
    assert pairs[..1] == [pairs[0]];
    assert LastValue(pairs, FROM) == Some(f);
    assert LastValue(pairs, TO) == Some(t);
    assert BoundsValid(pairs);
  }

  /** The query a client builds from two `i64`s yields exactly that range. */
  lemma {:induction false} WellFormedQuery(from: int, to: int)
    requires InRange(from) && InRange(to)
    ensures QueryRange(Serialize([Pair(FROM, ToDecimal(from)), Pair(TO, ToDecimal(to))])) == Success((from, to))
  {
    ParseSerialize([Pair(FROM, ToDecimal(from)), Pair(TO, ToDecimal(to))]);
    ToDecimalRoundTrip(from);
    ToDecimalRoundTrip(to);
    FromThenTo(ToDecimal(from), ToDecimal(to));
  }

  /** A query with only `from` yields the range from there to 0. */
  lemma {:induction false} FromOnlyQuery(from: int)
    requires InRange(from)
    ensures QueryRange(Serialize([Pair(FROM, ToDecimal(from))])) == Success((from, 0))
  {
    ParseSerialize([Pair(FROM, ToDecimal(from))]);
    ToDecimalRoundTrip(from);
  }
}
