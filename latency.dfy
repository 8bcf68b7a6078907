/** `get_latency`: the round-trip time of a ping-log line, the greedy digit
    run after the first `time=`, as `int(re.search("time=(\d*)", line).group(1))`
    computes it. */
module Latency {
  import opened Errors
  import opened Text

  const TOKEN: string := "time="

  /** CPython's default limit on the length of a decimal string that `int()`
      converts (`sys.get_int_max_str_digits()`); a longer one raises ValueError. */
  const MAX_INT_DIGITS: nat := 4300

  function GetLatency(line: string): (r: Result<nat>)
    ensures (r.Err? && r.error == AttributeError) <==> !Contains(line, TOKEN)
  {
    match FindFirst(line, TOKEN)
    case None => Err(AttributeError)                // re.search(...) is None
    case Some(p) =>
      var digits := DigitRun(line[p + |TOKEN|..]);
      if digits == [] then Err(ValueError)          // int("")
      else if |digits| > MAX_INT_DIGITS then Err(ValueError)
      else Ok(DigitsValue(digits))
  }

  /** No occurrence of `time=` can start inside `prefix` and run into a `time=`
      written right after it: the token does not overlap itself. */
  lemma FirstTokenAfter(prefix: string, tail: string)
    requires !Contains(prefix, TOKEN)
    ensures FindFirst(prefix + TOKEN + tail, TOKEN) == Some(|prefix|)
  {
    var line := prefix + TOKEN + tail;
    FindFirstSpec(line, TOKEN);
    FindFirstSpec(prefix, TOKEN);
    assert OccursAt(line, TOKEN, |prefix|) by {
      assert line[|prefix|..|prefix| + |TOKEN|] == TOKEN;
    }
    forall j: nat | j < |prefix|
      ensures !OccursAt(line, TOKEN, j)
    {
      if j + |TOKEN| <= |prefix| {
        assert line[j..j + |TOKEN|] == prefix[j..j + |TOKEN|];
        assert !OccursAt(prefix, TOKEN, j);
      } else {
        // the slice would hold the token's leading 't' at an offset where the token has none
        var d := |prefix| - j;
        assert line[j..j + |TOKEN|][d] == line[|prefix|] == 't';
        assert TOKEN[d] != 't';
      }
    }
  }

  /** A line written as `prefix time=<n> rest` reads back as `n`, whatever the
      rest of the line holds, provided `time=` does not occur earlier, the
      number ends where `rest` begins, and it has no more digits than
      `int()` accepts. */
  lemma GetLatencyRoundTrip(prefix: string, n: nat, rest: string)
    requires !Contains(prefix, TOKEN)
    requires |NatToDigits(n)| <= MAX_INT_DIGITS
    requires rest == [] || !IsDigit(rest[0])
    ensures GetLatency(prefix + TOKEN + NatToDigits(n) + rest) == Ok(n)
  {
    var line := prefix + TOKEN + NatToDigits(n) + rest;
    assert line == prefix + TOKEN + (NatToDigits(n) + rest);
    FirstTokenAfter(prefix, NatToDigits(n) + rest);
    assert line[|prefix| + |TOKEN|..] == NatToDigits(n) + rest;
    DigitRunOfDigits(NatToDigits(n), rest);
  }

  /** A first `time=` that no digit follows makes `int("")` raise ValueError. */
  lemma GetLatencyNoDigits(prefix: string, rest: string)
    requires !Contains(prefix, TOKEN)
    requires rest == [] || !IsDigit(rest[0])
    ensures GetLatency(prefix + TOKEN + rest) == Err(ValueError)
  {
    FirstTokenAfter(prefix, rest);
    var line := prefix + TOKEN + rest;
    assert line[|prefix| + |TOKEN|..] == rest;
  }

  /** A digit run after the first `time=` longer than `int()` accepts
      raises ValueError, whatever number it spells. */
  lemma GetLatencyTooManyDigits(prefix: string, digits: string, rest: string)
    requires !Contains(prefix, TOKEN)
    requires AllDigits(digits) && |digits| > MAX_INT_DIGITS
    requires rest == [] || !IsDigit(rest[0])
    ensures GetLatency(prefix + TOKEN + digits + rest) == Err(ValueError)
  {
    var line := prefix + TOKEN + digits + rest;
    assert line == prefix + TOKEN + (digits + rest);
    FirstTokenAfter(prefix, digits + rest);
    assert line[|prefix| + |TOKEN|..] == digits + rest;
    DigitRunOfDigits(digits, rest);
  }

  /** `line[start..e]`, with `start` just past a `time=` at `p`, is the
      maximal run of digits there. */
  predicate RunEndsAt(line: string, p: nat, e: nat)
  {
    var start := p + |TOKEN|;
    && start <= e <= |line|
    && AllDigits(line[start..e])
    && (e == |line| || !IsDigit(line[e]))
  }

  /** With the first `time=` at `p` and the digit run after it ending at
      `e`, `get_latency` returns that run's value, or raises ValueError when
      the run is empty or longer than `int()` accepts. */
  lemma GetLatencySpec(line: string, p: nat)
    requires FindFirst(line, TOKEN) == Some(p)
    ensures exists e: nat ::
      && RunEndsAt(line, p, e)
      && GetLatency(line) ==
           if e == p + |TOKEN| || e - (p + |TOKEN|) > MAX_INT_DIGITS then Err(ValueError)
           else Ok(DigitsValue(line[p + |TOKEN|..e]))
  {
    var start := p + |TOKEN|;
    var tail := line[start..];
    var digits := DigitRun(tail);
    var e: nat := start + |digits|;
    assert line[start..e] == digits by {
      assert line[start..e] == tail[..|digits|];
    }
    assert e == |line| || !IsDigit(line[e]) by {
      if e < |line| {
        assert line[e] == tail[|digits|];
      }
    }
    assert GetLatency(line) ==
      if digits == [] || |digits| > MAX_INT_DIGITS then Err(ValueError) else Ok(DigitsValue(digits));
    assert RunEndsAt(line, p, e);
  }
}
