/**
 * The byte-slice recognizers of the parser-combinator library the tokenizers are built from,
 * specified directly on sequences (the "complete" input variants). A recognizer takes the input
 * and returns either the unconsumed remainder with the matched value, or a failure.
 */
module Nom {
  import opened Wrappers
  import opened Bytes

  /** The failure of a recognizer. Only `Error` lets an enclosing choice try its next branch;
      `Failure` (a committed failure) and `Incomplete` end the choice. The error payload is
      reduced to the input position at which the failure was reported. */
  datatype Err = Incomplete | Error(input: seq<byte>) | Failure(input: seq<byte>)

  /** (remaining input, matched value) or a failure. */
  type IResult<T> = Result<(seq<byte>, T), Err>

  /** `take_till`: the longest prefix containing no byte satisfying `stop`; never fails. */
  function TakeTill(s: seq<byte>, stop: byte -> bool): (r: IResult<seq<byte>>)
    ensures r.Ok?
    ensures r.value.1 + r.value.0 == s
    ensures forall k :: 0 <= k < |r.value.1| ==> !stop(r.value.1[k])
    ensures r.value.0 == [] || stop(r.value.0[0])
  {
    if s == [] || stop(s[0]) then Ok((s, []))
    else
      var (rem, taken) := TakeTill(s[1..], stop).value;
      assert s == [s[0]] + s[1..];
      Ok((rem, [s[0]] + taken))
  }

  /** `take_till` stops at the first byte satisfying `stop`. */
  lemma {:induction false} TakeTillStopsAtFirst(s: seq<byte>, stop: byte -> bool, i: nat)
    requires i < |s| && stop(s[i])
    requires forall j :: 0 <= j < i ==> !stop(s[j])
    ensures TakeTill(s, stop).value.1 == s[..i]
  {
    if i > 0 {
      TakeTillStopsAtFirst(s[1..], stop, i - 1);
    }
  }

  /** `tag`: the literal `t` as a prefix of the input. */
  function Tag(t: seq<byte>, s: seq<byte>): (r: IResult<seq<byte>>)
    ensures r.Ok? <==> t <= s
    ensures r.Ok? ==> r.value.1 == t && t + r.value.0 == s
    ensures r.Err? ==> r.error == Error(s)
  {
    if |t| <= |s| && s[..|t|] == t then Ok((s[|t|..], s[..|t|])) else Err(Error(s))
  }

  /** `t` occurs in `s` starting at index `i`. */
  predicate OccursAt(s: seq<byte>, t: seq<byte>, i: int) {
    0 <= i && i + |t| <= |s| && s[i..i + |t|] == t
  }

  /** Index of the first occurrence of `t` in `s` at or after `from`, if any. */
  function FindFrom(s: seq<byte>, t: seq<byte>, from: nat): (r: Option<nat>)
    requires from <= |s|
    ensures r.Some? ==> from <= r.value && OccursAt(s, t, r.value)
    ensures r.Some? ==> forall j :: from <= j < r.value ==> !OccursAt(s, t, j)
    ensures r.None? ==> forall j :: from <= j <= |s| ==> !OccursAt(s, t, j)
    decreases |s| - from
  {
    if OccursAt(s, t, from) then Some(from)
    else if from + |t| >= |s| then None
    else FindFrom(s, t, from + 1)
  }

  /** `take_until`: everything before the first occurrence of `t`, which is left in the remainder;
      fails when `t` does not occur. */
  function TakeUntil(t: seq<byte>, s: seq<byte>): (r: IResult<seq<byte>>)
    ensures r.Ok? <==> exists i :: OccursAt(s, t, i)
    ensures r.Ok? ==> r.value.1 + r.value.0 == s && OccursAt(s, t, |r.value.1|)
    ensures r.Ok? ==> forall j :: 0 <= j < |r.value.1| ==> !OccursAt(s, t, j)
    ensures r.Err? ==> r.error == Error(s)
  {
    match FindFrom(s, t, 0)
    case None => Err(Error(s))
    case Some(i) =>
      assert s[..i] + s[i..] == s;
      Ok((s[i..], s[..i]))
  }

  /** `take_until` of a single byte: succeeds iff the byte occurs, and then stops at its first
      occurrence, which heads the remainder. */
  lemma TakeUntilByte(b: byte, s: seq<byte>)
    ensures TakeUntil([b], s).Ok? <==> b in s
    ensures TakeUntil([b], s).Ok? ==>
      var (rem, taken) := TakeUntil([b], s).value;
      b !in taken && rem != [] && rem[0] == b && taken + [b] + rem[1..] == s
  {
    if b in s {
      var k :| 0 <= k < |s| && s[k] == b;
      OccursAtByte(s, b, k);
    }
    if TakeUntil([b], s).Ok? {
      TakeUntilByteSplits(b, s);
    }
  }

  /** The split made by a successful single-byte `take_until`. */
  lemma TakeUntilByteSplits(b: byte, s: seq<byte>)
    requires TakeUntil([b], s).Ok?
    ensures var (rem, taken) := TakeUntil([b], s).value;
      b !in taken && rem != [] && rem[0] == b && taken + [b] + rem[1..] == s
  {
    var (rem, taken) := TakeUntil([b], s).value;
    forall m | 0 <= m < |taken| ensures taken[m] != b {
      OccursAtByte(s, b, m);
    }
    OccursAtByte(s, b, |taken|);
    assert rem == [b] + rem[1..];
    assert taken + [b] + rem[1..] == taken + ([b] + rem[1..]);
  }

  /** A one-byte literal occurs exactly where that byte is. */
  lemma OccursAtByte(s: seq<byte>, b: byte, i: nat)
    requires i < |s|
    ensures OccursAt(s, [b], i) <==> s[i] == b
  {
    assert s[i..i + 1] == [s[i]];
  }

  /** `rest`: the whole remaining input; never fails. */
  function Rest(s: seq<byte>): (r: IResult<seq<byte>>)
    ensures r.Ok? && r.value.0 == [] && r.value.1 == s
  {
    Ok(([], s))
  }

  /** `map`: applies `f` to the matched value of a recognizer's result. */
  function Map<T, U>(r: IResult<T>, f: T -> U): IResult<U> {
    match r
    case Ok((rem, v)) => Ok((rem, f(v)))
    case Err(e) => Err(e)
  }

  /** `alt` over two recognizers: the first one's result unless it failed with a recoverable
      `Error`, in which case the second one's; when both fail recoverably, one `Error` at the
      input. */
  function Alt<T>(first: seq<byte> -> IResult<T>, second: seq<byte> -> IResult<T>, s: seq<byte>): IResult<T> {
    match first(s)
    case Err(Error(_)) =>
      (match second(s)
       case Err(Error(_)) => Err(Error(s))
       case other => other)
    case other => other
  }
}
