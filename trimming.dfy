/** The log trimmer `extract_pings`: keep the lines from the first echo reply
    to the last one, dropping the connection banner in front and the
    timeouts and statistics footer behind. */
module Trimming {
  import opened Errors
  import opened Text

  /** The text that marks a successful echo reply. */
  const MARKER: string := "Reply from"

  predicate IsReply(line: string)
  {
    Contains(line, MARKER)
  }

  /** How many lines `itertools.dropwhile(lambda ln: MARKER not in ln, lines)`
      skips: the non-reply lines in front of the first reply line. */
  function LeadingNonReplies(lines: seq<string>): (n: nat)
    ensures n <= |lines|
    ensures n < |lines| ==> IsReply(lines[n])
    ensures forall k :: 0 <= k < n ==> !IsReply(lines[k])
  {
    if lines == [] || IsReply(lines[0]) then 0
    else
      var n := LeadingNonReplies(lines[1..]);
      assert forall k :: 1 <= k < |lines| ==> lines[1..][k - 1] == lines[k];
      n + 1
  }

  /** Position of the first reply line. */
  function FirstReply(lines: seq<string>): (r: Option<nat>)
    ensures r.Some? ==> r.value < |lines| && IsReply(lines[r.value])
    ensures forall k :: 0 <= k < |lines| && (r.None? || k < r.value) ==> !IsReply(lines[k])
  {
    if lines == [] then None
    else if IsReply(lines[0]) then Some(0)
    else
      var r := FirstReply(lines[1..]);
      assert forall k :: 1 <= k < |lines| ==> lines[1..][k - 1] == lines[k];
      if r.Some? then Some(r.value + 1) else None
  }

  /** Position of the last reply line. */
  function LastReply(lines: seq<string>): (r: Option<nat>)
    ensures r.Some? ==> r.value < |lines| && IsReply(lines[r.value])
    ensures forall k :: 0 <= k < |lines| && (r.None? || r.value < k) ==> !IsReply(lines[k])
  {
    if lines == [] then None
    else if IsReply(lines[|lines| - 1]) then Some(|lines| - 1)
    else LastReply(lines[..|lines| - 1])
  }

  /** What `extract_pings` returns: the span from the first to the last reply
      line, or the IndexError it raises when there is no reply line. */
  function Trim(lines: seq<string>): (r: Result<seq<string>>)
    ensures r.Ok? ==> r.value != [] && IsReply(r.value[0]) && IsReply(r.value[|r.value| - 1])
    ensures r.Err? <==> forall k :: 0 <= k < |lines| ==> !IsReply(lines[k])
    ensures r.Err? ==> r.error == IndexError
  {
    var first, last := FirstReply(lines), LastReply(lines);
    if first.Some? && last.Some? then
      assert first.value <= last.value;
      Ok(lines[first.value..last.value + 1])
    else Err(IndexError)
  }

  /** Python's `s[i]`: a negative index counts from the end, anything outside
      `-len(s) .. len(s) - 1` raises IndexError. */
  function PyIndex<T>(s: seq<T>, i: int): Option<T>
  {
    if 0 <= i < |s| then Some(s[i])
    else if -|s| <= i < 0 then Some(s[|s| + i])
    else None
  }

  /** The list left by `s.pop(i)`. */
  function Pop<T>(s: seq<T>, i: nat): (r: seq<T>)
    requires i < |s|
    ensures |r| == |s| - 1
    ensures i == |s| - 1 ==> r == s[..i]
  {
    s[..i] + s[i + 1..]
  }

  /** The list left by `s[-k:(k and None)] = []`. For `k == 0` the slice is
      `s[0:0]` and nothing is removed; otherwise it runs from `-k` to the end. */
  function DeleteTailSlice<T>(s: seq<T>, k: int): (r: seq<T>)
    ensures r <= s
    ensures k == 0 ==> r == s
    ensures k > 0 ==> |r| == if k <= |s| then |s| - k else 0
    ensures k < 0 ==> |r| == if -k <= |s| then -k else |s|
  {
    if k == 0 then s
    else
      var start := if -k >= 0 then (if -k > |s| then |s| else -k)
                   else if |s| - k < 0 then 0 else |s| - k;
      s[..start]
  }

  /** The backward `while` loop of `extract_pings`: starting at the last
      line, pop lines until `pings[i]` is a reply line. Returns the list left,
      the final `i`, and whether `pings[i]` raised IndexError, which happens
      only once the list is empty (`i == -1`). */
  method PopTrailing(kept: seq<string>) returns (pings: seq<string>, i: int, raised: bool)
    ensures -1 <= i < |kept| && pings == kept[..i + 1]
    ensures forall k :: i < k < |kept| ==> !IsReply(kept[k])
    ensures raised <==> i < 0
    ensures !raised ==> IsReply(kept[i])
  {
    pings := kept;
    var n := |pings|;
    i := n - 1;
    while true
      invariant -1 <= i < n && pings == kept[..i + 1]
      invariant forall k :: i < k < n ==> !IsReply(kept[k])
      decreases i + 1
    {
      var line := PyIndex(pings, i);
      if line.None? {
        return pings, i, true;
      }
      if IsReply(line.value) {
        return pings, i, false;
      }
      pings := Pop(pings, i);
      i := i - 1;
    }
  }

  /** `extract_pings`: drop the head with `dropwhile`, then pop trailing
      lines from the back until a reply line is reached; the slice
      deletion that follows removes nothing. */
  method ExtractPings(lines: seq<string>) returns (r: Result<seq<string>>)
    ensures r == Trim(lines)
  {
    var skipped := LeadingNonReplies(lines);
    var pings := lines[skipped..];  // list(dropwhile(...))
    var i, raised;
    pings, i, raised := PopTrailing(pings);
    TrimAfterSkip(lines, skipped, i);
    if raised {
      // only an empty list makes `pings[-1]` fail, so no line is a reply
      return Err(IndexError);
    }
    var linesToDelete := |pings| - 1 - i;
    assert linesToDelete == 0;  // so the slice deletion below is `pings[0:0] = []`
    pings := DeleteTailSlice(pings, linesToDelete);
    r := Ok(pings);
  }

  /** After the head is dropped, popping every non-reply line behind the
      last reply leaves what trimming returns, and popping them all means
      there was no reply line. */
  lemma TrimAfterSkip(lines: seq<string>, skipped: nat, last: int)
    requires skipped <= |lines|
    requires skipped < |lines| ==> IsReply(lines[skipped])
    requires forall k :: 0 <= k < skipped ==> !IsReply(lines[k])
    requires -1 <= last < |lines| - skipped
    requires last >= 0 ==> IsReply(lines[skipped..][last])
    requires forall k :: last < k < |lines| - skipped ==> !IsReply(lines[skipped..][k])
    ensures Trim(lines) == if last < 0 then Err(IndexError) else Ok(lines[skipped..][..last + 1])
  {
    KeptSpan(lines, skipped, last);
    if last >= 0 {
      TrimOfSpan(lines, skipped, skipped + last + 1);
    } else {
      TrimNoReply(lines, skipped);
    }
  }

  /** What the popping loop learns about the dropped list `lines[skipped..]`,
      restated on `lines`: nothing behind position `last` of it is a reply. */
  lemma KeptSpan(lines: seq<string>, skipped: nat, last: int)
    requires skipped <= |lines|
    requires -1 <= last < |lines| - skipped
    requires last >= 0 ==> IsReply(lines[skipped..][last])
    requires forall k :: last < k < |lines| - skipped ==> !IsReply(lines[skipped..][k])
    ensures forall k :: skipped + last < k < |lines| ==> !IsReply(lines[k])
    ensures last >= 0 ==> IsReply(lines[skipped + last])
    ensures lines[skipped..][..last + 1] == lines[skipped..skipped + last + 1]
  {
    var kept := lines[skipped..];
    forall k | skipped + last < k < |lines|
      ensures !IsReply(lines[k])
    {
      assert lines[k] == kept[k - skipped];
    }
    if last >= 0 {
      assert lines[skipped + last] == kept[last];
    }
  }

  /** With no reply line before or from `skipped` on, trimming raises. */
  lemma TrimNoReply(lines: seq<string>, skipped: nat)
    requires forall k :: 0 <= k < skipped && k < |lines| ==> !IsReply(lines[k])
    requires forall k :: skipped <= k < |lines| ==> !IsReply(lines[k])
    ensures Trim(lines) == Err(IndexError)
  {
    assert forall k :: 0 <= k < |lines| ==> !IsReply(lines[k]);
  }

  /** Any span that starts and ends with a reply line and has no reply line
      outside it is exactly what trimming returns. */
  lemma TrimOfSpan(lines: seq<string>, lo: nat, hi: nat)
    requires lo < hi <= |lines|
    requires IsReply(lines[lo]) && IsReply(lines[hi - 1])
    requires forall k :: 0 <= k < lo ==> !IsReply(lines[k])
    requires forall k :: hi <= k < |lines| ==> !IsReply(lines[k])
    ensures Trim(lines) == Ok(lines[lo..hi])
  {
    var first, last := FirstReply(lines), LastReply(lines);
    assert first.Some? && last.Some?;
    assert first.value == lo;
    assert last.value == hi - 1;
  }

  /** Trimming keeps one contiguous stretch of the input, with no reply line
      before or after it. */
  lemma TrimIsSpan(lines: seq<string>) returns (lo: nat)
    requires Trim(lines).Ok?
    ensures var t := Trim(lines).value;
      && lo + |t| <= |lines|
      && t == lines[lo..lo + |t|]
      && (forall k :: 0 <= k < lo ==> !IsReply(lines[k]))
      && (forall k :: lo + |t| <= k < |lines| ==> !IsReply(lines[k]))
  {
    lo := FirstReply(lines).value;
    var t := Trim(lines).value;
    assert t == lines[lo..lo + |t|];
  }

  /** Trimming an already trimmed log changes nothing. */
  lemma TrimIdempotent(lines: seq<string>)
    requires Trim(lines).Ok?
    ensures Trim(Trim(lines).value) == Trim(lines)
  {
    var t := Trim(lines).value;
    TrimOfSpan(t, 0, |t|);
    assert t[0..|t|] == t;
  }

  /** The reply lines of a log, in order. */
  function Replies(lines: seq<string>): (r: seq<string>)
    ensures |r| <= |lines|
    ensures forall k :: 0 <= k < |r| ==> IsReply(r[k])
  {
    if lines == [] then []
    else (if IsReply(lines[0]) then [lines[0]] else []) + Replies(lines[1..])
  }

  lemma {:induction false} RepliesAppend(a: seq<string>, b: seq<string>)
    ensures Replies(a + b) == Replies(a) + Replies(b)
  {
    if a == [] {
      assert a + b == b;
    } else {
      assert (a + b)[1..] == a[1..] + b;
      RepliesAppend(a[1..], b);
    }
  }

  lemma {:induction false} RepliesNone(lines: seq<string>)
    requires forall k :: 0 <= k < |lines| ==> !IsReply(lines[k])
    ensures Replies(lines) == []
  {
    if lines != [] {
      assert forall k :: 1 <= k < |lines| ==> lines[1..][k - 1] == lines[k];
      RepliesNone(lines[1..]);
    }
  }

  /** No reply line is lost by trimming, and their order is kept. */
  lemma TrimKeepsReplies(lines: seq<string>)
    requires Trim(lines).Ok?
    ensures Replies(Trim(lines).value) == Replies(lines)
  {
    var lo, hi := FirstReply(lines).value, LastReply(lines).value + 1;
    var head, mid, tail := lines[..lo], lines[lo..hi], lines[hi..];
    assert Trim(lines).value == mid;
    assert forall k :: 0 <= k < |head| ==> head[k] == lines[k];
    RepliesNone(head);
    assert forall k :: 0 <= k < |tail| ==> tail[k] == lines[hi + k];
    RepliesNone(tail);
    assert lines == head + mid + tail;
    RepliesAppend(head + mid, tail);
    RepliesAppend(head, mid);
  }
}
