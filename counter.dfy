/**
 * The pending counter shared by the per-deployment checkers: a fixed total and
 * a 32-bit pending count that each finished checker decrements once, and the
 * progress fragment rendered from a pending value.
 */
module Progress {
  import opened Wrappers
  import opened Text

  const INT32_MIN := -0x8000_0000
  const INT32_MAX := 0x7fff_ffff

  /** Two's-complement 32-bit wrap-around, as Go's int32 conversion and atomic.AddInt32 behave. */
  function Int32(x: int): (r: int)
    ensures INT32_MIN <= r <= INT32_MAX
    ensures (r - x) % 0x1_0000_0000 == 0
  {
    (x - INT32_MIN) % 0x1_0000_0000 + INT32_MIN
  }

  /** Within range, the 32-bit conversion changes nothing. */
  lemma Int32InRange(x: int)
    requires INT32_MIN <= x <= INT32_MAX
    ensures Int32(x) == x
  {
  }

  /** Wrapping before or after subtracting one gives the same 32-bit value. */
  lemma Int32Decrement(x: int)
    ensures Int32(Int32(x) - 1) == Int32(x - 1)
  {
    var y := x - INT32_MIN;
    var q, r := y / 0x1_0000_0000, y % 0x1_0000_0000;
    assert y == q * 0x1_0000_0000 + r;
    if r == 0 {
      assert y - 1 == (q - 1) * 0x1_0000_0000 + 0xffff_ffff;
    } else {
      assert y - 1 == q * 0x1_0000_0000 + (r - 1);
    }
  }

  /** The words after the counts in the pending fragment. */
  const PENDING_WORDS := " deployment(s) still pending]"

  /** The closing words hold neither a line break nor an opening bracket. */
  lemma PendingWordsPlain()
    ensures Lacks(PENDING_WORDS, '\n') && Lacks(PENDING_WORDS, '[')
  {
  }

  /**
   * getPendingMessage: for a positive pending value, the fragment
   * " [<pending>/<total> deployment(s) still pending]"; otherwise nothing.
   */
  function PendingMessage(total: int, pending: int): (msg: string)
    ensures pending <= 0 <==> msg == []
  {
    if pending > 0 then " [" + IntToString(pending) + "/" + IntToString(total) + PENDING_WORDS else ""
  }

  /**
   * Where things stand in a positive fragment: `[` at index 1, the pending
   * digits right after it, then `/`, and no other `[`.
   */
  lemma PendingMessageLayout(total: int, pending: int)
    requires pending > 0
    ensures var msg, digits := PendingMessage(total, pending), IntToString(pending);
      |msg| > 2 + |digits| &&
      msg[1] == '[' && msg[2..2 + |digits|] == digits && msg[2 + |digits|] == '/' &&
      forall k :: 2 <= k < |msg| ==> msg[k] != '['
  {
    var digits, counts := IntToString(pending), IntToString(total);
    var withDigits := " [" + digits;
    var withSlash := withDigits + "/";
    var withCounts := withSlash + counts;
    var msg := withCounts + PENDING_WORDS;
    assert msg == PendingMessage(total, pending);
    PendingWordsPlain();
    forall k | 2 <= k < |msg| ensures msg[k] != '[' {
      if k < |withCounts| {
        assert msg[k] == withCounts[k];
        if k < |withSlash| {
          assert withCounts[k] == withSlash[k];
          if k < |withDigits| {
            assert withSlash[k] == withDigits[k] == digits[k - 2];
          }
        } else {
          assert withCounts[k] == counts[k - |withSlash|];
        }
      } else {
        assert msg[k] == PENDING_WORDS[k - |withCounts|];
      }
    }
    assert msg[2..2 + |digits|] == withDigits[2..];
  }

  /** A positive pending value appears in its fragment as `[<pending>/`. */
  lemma PendingMessageShowsCount(total: int, pending: int)
    requires pending > 0
    ensures Contains(PendingMessage(total, pending), "[" + IntToString(pending) + "/")
  {
    var msg, digits := PendingMessage(total, pending), IntToString(pending);
    PendingMessageLayout(total, pending);
    assert msg[1..1 + |"[" + digits + "/"|] == "[" + digits + "/";
    ContainsAt(msg, "[" + digits + "/", 1);
  }

  /** The fragment holds no line break. */
  lemma PendingMessageOneLine(total: int, pending: int)
    ensures Lacks(PendingMessage(total, pending), '\n')
  {
    if pending > 0 {
      var digits, counts := IntToString(pending), IntToString(total);
      assert Lacks(" [", '\n') && Lacks("/", '\n');
      PendingWordsPlain();
      LacksConcat(" [", digits, '\n');
      LacksConcat(" [" + digits, "/", '\n');
      LacksConcat(" [" + digits + "/", counts, '\n');
      LacksConcat(" [" + digits + "/" + counts, PENDING_WORDS, '\n');
    }
  }

  class Counter {
    /** The number of deployments under check; Go's `int`. */
    const total: int
    /** Deployments not yet processed; Go's `int32`, so it wraps. */
    var pending: int
    /** The values handed out by MarkProcessed so far, in call order. */
    ghost var handedOut: seq<int>

    ghost predicate Valid()
      reads this
    {
      pending == Int32(total - |handedOut|) &&
      handedOut == HandedOut(total, |handedOut|)
    }

    /** newCounter: `pending` starts at the total, converted to int32. */
    constructor (n: int)
      ensures Valid()
      ensures total == n && pending == Int32(n) && handedOut == []
    {
      total := n;
      pending := Int32(n);
      handedOut := [];
    }

    /** markProcessed: decrement `pending` and return its new value. */
    method MarkProcessed() returns (p: int)
      requires Valid()
      modifies this
      ensures Valid()
      ensures p == Int32(old(pending) - 1) && pending == p
      ensures handedOut == old(handedOut) + [p]
    {
      Int32Decrement(total - |handedOut|);
      pending := Int32(pending - 1);
      p := pending;
      handedOut := handedOut + [p];
      assert handedOut == HandedOut(total, |handedOut|);
    }
  }

  /** The values the first `k` calls of MarkProcessed return on a counter of `total`. */
  function HandedOut(total: int, k: nat): seq<int> {
    seq(k, i requires 0 <= i < k => Int32(total - 1 - i))
  }

  /**
   * On a counter whose total fits in 32 bits, `total` calls hand out every
   * value of [0, total) exactly once.
   */
  lemma HandedOutDistinct(total: int, k: nat)
    requires 0 <= total <= INT32_MAX && k <= total
    ensures forall i, j :: 0 <= i < j < k ==> HandedOut(total, k)[i] != HandedOut(total, k)[j]
    ensures forall i :: 0 <= i < k ==> HandedOut(total, k)[i] == total - 1 - i
    ensures k == total ==> forall v :: v in HandedOut(total, k) <==> 0 <= v < total
  {
    var s := HandedOut(total, k);
    forall i | 0 <= i < k ensures s[i] == total - 1 - i {
      Int32InRange(total - 1 - i);
    }
    if k == total {
      forall v | 0 <= v < total ensures v in s {
        assert s[total - 1 - v] == v;
      }
    }
  }

  /**
   * Of the `total` values handed out, only the last, 0, renders without a
   * pending fragment; every other one shows its count.
   */
  lemma OnlyLastIsSilent(total: int, i: nat)
    requires 0 <= total <= INT32_MAX && i < total
    ensures PendingMessage(total, HandedOut(total, total)[i]) == [] <==> i == total - 1
  {
    HandedOutDistinct(total, total);
  }

  /** Length of the run of digits in `s` starting at `i`. */
  function DigitRun(s: string, i: nat): (n: nat)
    requires i <= |s|
    ensures i + n <= |s|
    decreases |s| - i
  {
    if i < |s| && IsDigit(s[i]) then 1 + DigitRun(s, i + 1) else 0
  }

  /** The run measured by DigitRun is made of digits and is maximal. */
  lemma {:induction false} DigitRunIsDigits(s: string, i: nat)
    requires i <= |s|
    ensures AllDigits(s[i..i + DigitRun(s, i)])
    ensures i + DigitRun(s, i) < |s| ==> !IsDigit(s[i + DigitRun(s, i)])
    decreases |s| - i
  {
    if i < |s| && IsDigit(s[i]) {
      DigitRunIsDigits(s, i + 1);
      assert s[i..i + DigitRun(s, i)] == [s[i]] + s[i + 1..i + 1 + DigitRun(s, i + 1)];
    }
  }

  /** `\[(\d+)/` matches at index `i` of `s`. */
  predicate MatchesAt(s: string, i: nat)
    requires i < |s|
  {
    s[i] == '[' && var n := DigitRun(s, i + 1); n > 0 && i + 1 + n < |s| && s[i + 1 + n] == '/'
  }

  /** The last index below `k` at which the pattern matches (the greedy leading `.*` picks the last one). */
  function LastMatch(s: string, k: nat): (r: Option<nat>)
    requires k <= |s|
    ensures r.None? <==> forall i :: 0 <= i < k ==> !MatchesAt(s, i)
    ensures r.Some? ==> r.value < k && MatchesAt(s, r.value)
    ensures r.Some? ==> forall j :: r.value < j < k ==> !MatchesAt(s, j)
  {
    if k == 0 then None
    else if MatchesAt(s, k - 1) then Some(k - 1)
    else LastMatch(s, k - 1)
  }

  /**
   * The pending count the race test reads back from a message with the pattern
   * `.*\[(\d+)/.*`: the captured digits, or 0 when the pattern does not match.
   * The text is taken to hold no line break, as every message here does.
   */
  function ReportedPending(s: string): (r: nat)
    ensures (forall i :: 0 <= i < |s| ==> !MatchesAt(s, i)) ==> r == 0
  {
    match LastMatch(s, |s|)
    case None => 0
    case Some(i) =>
      DigitRunIsDigits(s, i + 1);
      ParseDigits(s[i + 1..i + 1 + DigitRun(s, i + 1)])
  }

  /** Reading back a positive pending value from text holding its fragment gives that value. */
  lemma ReportedPendingOfMessage(prefix: string, total: int, pending: int, suffix: string)
    requires pending > 0 && Lacks(suffix, '[')
    ensures ReportedPending(prefix + PendingMessage(total, pending) + suffix) == pending
  {
    var msg, digits := PendingMessage(total, pending), IntToString(pending);
    var s := prefix + msg + suffix;
    var at := |prefix| + 1;
    PendingMessageLayout(total, pending);
    assert s[at] == msg[1];
    assert s[at + 1..at + 1 + |digits|] == msg[2..2 + |digits|];
    assert s[at + 1 + |digits|] == msg[2 + |digits|];
    NoBracketAfter(prefix, msg, suffix);
    ReportedPendingAt(s, at, digits);
    ParseNatToString(pending);
  }

  /** In `prefix + msg + suffix`, no `[` follows the one at index 1 of `msg`. */
  lemma NoBracketAfter(prefix: string, msg: string, suffix: string)
    requires |msg| > 2 && Lacks(suffix, '[')
    requires forall k :: 2 <= k < |msg| ==> msg[k] != '['
    ensures var s := prefix + msg + suffix;
      forall i :: |prefix| + 1 < i < |s| ==> s[i] != '['
  {
    var s := prefix + msg + suffix;
    forall i | |prefix| + 1 < i < |s| ensures s[i] != '[' {
      if i < |prefix| + |msg| {
        assert s[i] == msg[i - |prefix|];
      } else {
        assert s[i] == suffix[i - |prefix| - |msg|];
      }
    }
  }

  /** The last `[` of `s`, followed by `digits` and `/`, decides what is read back. */
  lemma ReportedPendingAt(s: string, at: nat, digits: string)
    requires at + 1 + |digits| < |s| && |digits| > 0 && AllDigits(digits)
    requires s[at] == '[' && s[at + 1..at + 1 + |digits|] == digits && s[at + 1 + |digits|] == '/'
    requires forall i :: at < i < |s| ==> s[i] != '['
    ensures ReportedPending(s) == ParseDigits(digits)
  {
    BracketThenDigits(s, at, digits);
    LastMatchIs(s, at);
    CapturedAt(s, at, digits);
  }

  /** A match followed by no `[` is the last match. */
  lemma LastMatchIs(s: string, at: nat)
    requires at < |s| && MatchesAt(s, at)
    requires forall i :: at < i < |s| ==> s[i] != '['
    ensures LastMatch(s, |s|) == Some(at)
  {
    LastMatchSkips(s, at + 1, |s|);
  }

  /** What is read back when the last match is at `at`: the digit run after the `[`. */
  lemma {:induction false} CapturedAt(s: string, at: nat, digits: string)
    requires LastMatch(s, |s|) == Some(at)
    requires at + 1 + |digits| <= |s| && DigitRun(s, at + 1) == |digits|
    requires s[at + 1..at + 1 + |digits|] == digits && AllDigits(digits)
    ensures ReportedPending(s) == ParseDigits(digits)
  {
  }

  /** A `[`, then `digits`, then `/`: the pattern matches there and captures exactly `digits`. */
  lemma BracketThenDigits(s: string, at: nat, digits: string)
    requires at + 1 + |digits| < |s| && |digits| > 0 && AllDigits(digits)
    requires s[at] == '[' && s[at + 1..at + 1 + |digits|] == digits && s[at + 1 + |digits|] == '/'
    ensures MatchesAt(s, at) && DigitRun(s, at + 1) == |digits|
    ensures s[at + 1..at + 1 + DigitRun(s, at + 1)] == digits
  {
    DigitRunIs(s, at + 1, |digits|);
  }

  /** A digit run of known length ending before a non-digit is measured exactly. */
  lemma {:induction false} DigitRunIs(s: string, i: nat, n: nat)
    requires i + n < |s| && AllDigits(s[i..i + n]) && !IsDigit(s[i + n])
    ensures DigitRun(s, i) == n
    decreases n
  {
    if n > 0 {
      assert s[i] == s[i..i + n][0];
      assert s[i + 1..i + 1 + (n - 1)] == s[i..i + n][1..];
      DigitRunIs(s, i + 1, n - 1);
    }
  }

  /** Positions without a `[` do not change the last match. */
  lemma {:induction false} LastMatchSkips(s: string, j: nat, k: nat)
    requires j <= k <= |s|
    requires forall i :: j <= i < k ==> s[i] != '['
    ensures LastMatch(s, k) == LastMatch(s, j)
    decreases k - j
  {
    if j < k {
      LastMatchSkips(s, j, k - 1);
    }
  }

  /** The pending count read back from a counter's own message is the value rendered, or 0 for none. */
  lemma ReadBack(total: int, pending: int)
    ensures ReportedPending(PendingMessage(total, pending)) == if pending > 0 then pending else 0
  {
    var message := PendingMessage(total, pending);
    if pending > 0 {
      ReadBackPositive(total, pending);
    } else {
      assert message == [];
      ReportedPendingNoBracket(message);
    }
  }

  /** A positive pending value reads back from its fragment alone. */
  lemma ReadBackPositive(total: int, pending: int)
    requires pending > 0
    ensures ReportedPending(PendingMessage(total, pending)) == pending
  {
    var message := PendingMessage(total, pending);
    assert message == "" + message + "";
    ReportedPendingOfMessage("", total, pending, "");
  }

  /** Text without any `[` reads back as 0. */
  lemma ReportedPendingNoBracket(s: string)
    requires Lacks(s, '[')
    ensures ReportedPending(s) == 0
  {
    LastMatchSkips(s, 0, |s|);
  }

  /**
   * The race test, run sequentially: `total` callers each mark one deployment
   * processed and read the pending count back from its message. No value is
   * read twice, and together they are exactly 0 .. total-1.
   */
  method ReportAll(total: int) returns (reported: seq<nat>)
    requires 0 <= total <= INT32_MAX
    ensures |reported| == total
    ensures forall i, j :: 0 <= i < j < |reported| ==> reported[i] != reported[j]
    ensures forall v :: v in reported <==> 0 <= v < total
  {
    var c := new Counter(total);
    Int32InRange(total);
    reported := [];
    for i := 0 to c.total
      invariant c.Valid() && c.total == total && |c.handedOut| == i
      invariant |reported| == i
      invariant forall k :: 0 <= k < i ==> reported[k] == total - 1 - k
    {
      HandedOutDistinct(total, i + 1);
      var p := c.MarkProcessed();
      assert p == c.handedOut[i] == total - 1 - i;
      var message := PendingMessage(c.total, p);
      ReadBack(c.total, p);
      reported := reported + [ReportedPending(message)];
    }
    forall v | 0 <= v < total ensures v in reported {
      assert reported[total - 1 - v] == v;
    }
  }
}
