/**
 * The one-line summary printed when a deployment's check finishes: ready or
 * failed, with the pending fragment while other deployments are still checked.
 */
module Summary {
  import opened Wrappers
  import opened Text
  import opened Progress

  /** The deployment and its outcome: ` - deployment/<name> is ready.` or `... failed.`. */
  function StatusHead(name: string, err: Option<string>): string {
    " - deployment/" + name + (if err.None? then " is ready." else " failed.")
  }

  /** What follows the pending fragment: the line break, after ` Error: <cause>.` for a failure. */
  function StatusTail(err: Option<string>): string {
    match err
    case None => "\n"
    case Some(cause) => " Error: " + cause + ".\n"
  }

  /**
   * printStatusCheckSummary, as the text it writes: head, the pending fragment
   * for `pending` out of `total`, tail.
   */
  function StatusLine(name: string, total: int, pending: int, err: Option<string>): (line: string)
    ensures |line| > 0 && line[|line| - 1] == '\n'
  {
    StatusHead(name, err) + PendingMessage(total, pending) + StatusTail(err)
  }

  /** With a name and cause on one line, the summary is one line: a single line break, at its end. */
  lemma StatusLineIsOneLine(name: string, total: int, pending: int, err: Option<string>)
    requires Lacks(name, '\n') && (err.Some? ==> Lacks(err.value, '\n'))
    ensures var line := StatusLine(name, total, pending, err);
      Lacks(line[..|line| - 1], '\n')
  {
    var head, fragment, tail := StatusHead(name, err), PendingMessage(total, pending), StatusTail(err);
    var line := StatusLine(name, total, pending, err);
    HeadLacks(name, err, '\n');
    PendingMessageOneLine(total, pending);
    LacksConcat(head, fragment, '\n');
    var body := TailBodyLacks(err, '\n');
    LacksConcat(head + fragment, body, '\n');
    assert line[..|line| - 1] == head + fragment + body;
  }

  /** The head adds no character `c` beyond those of the name. */
  lemma HeadLacks(name: string, err: Option<string>, c: char)
    requires c == '\n' || c == '['
    requires Lacks(name, c)
    ensures Lacks(StatusHead(name, err), c)
  {
    assert Lacks(" - deployment/", c) && Lacks(" is ready.", c) && Lacks(" failed.", c);
    LacksConcat(" - deployment/", name, c);
    LacksConcat(" - deployment/" + name, if err.None? then " is ready." else " failed.", c);
  }

  /** The tail, without its final line break, adds no character `c` beyond those of the cause. */
  lemma TailBodyLacks(err: Option<string>, c: char) returns (body: string)
    requires c == '\n' || c == '['
    requires err.Some? ==> Lacks(err.value, c)
    ensures StatusTail(err) == body + "\n" && Lacks(body, c)
  {
    if err.Some? {
      assert Lacks(" Error: ", c) && Lacks(".", c);
      LacksConcat(" Error: ", err.value, c);
      LacksConcat(" Error: " + err.value, ".", c);
      body := " Error: " + err.value + ".";
    } else {
      body := "";
    }
  }

  /**
   * Reading the pending count back from the summary (as the race test reads it
   * from the fragment) gives the pending value when positive and 0 otherwise.
   */
  lemma StatusLineReportsPending(name: string, total: int, pending: int, err: Option<string>)
    requires Lacks(name, '[') && (err.Some? ==> Lacks(err.value, '['))
    ensures ReportedPending(StatusLine(name, total, pending, err)) == if pending > 0 then pending else 0
  {
    var head, fragment, tail := StatusHead(name, err), PendingMessage(total, pending), StatusTail(err);
    var body := TailBodyLacks(err, '[');
    assert Lacks("\n", '[');
    LacksConcat(body, "\n", '[');
    if pending > 0 {
      ReportedPendingOfMessage(head, total, pending, tail);
    } else {
      HeadLacks(name, err, '[');
      assert StatusLine(name, total, pending, err) == head + tail;
      LacksConcat(head, tail, '[');
      ReportedPendingNoBracket(head + tail);
    }
  }

  /** A failure's summary carries its cause after ` Error: `, closed by a full stop. */
  lemma StatusLineShowsCause(name: string, total: int, pending: int, cause: string)
    ensures Contains(StatusLine(name, total, pending, Some(cause)), " Error: " + cause + ".")
  {
    var line := StatusLine(name, total, pending, Some(cause));
    var before := StatusHead(name, Some(cause)) + PendingMessage(total, pending);
    var shown := " Error: " + cause + ".";
    assert line == before + shown + "\n";
    assert line[|before|..|before| + |shown|] == shown;
    ContainsAt(line, shown, |before|);
  }

  /** Success, nothing else pending. */
  lemma ReadyNonePending()
    ensures StatusLine("dep", 10, 0, None) == " - deployment/dep is ready.\n"
  {
    assert " - deployment/" + "dep" == " - deployment/dep";
    assert " - deployment/dep" + " is ready." == " - deployment/dep is ready.";
    assert " - deployment/dep is ready." + "" == " - deployment/dep is ready.";
  }

  /** Failure, nothing else pending. */
  lemma FailedNonePending()
    ensures StatusLine("dep", 10, 0, Some("context deadline expired")) ==
      " - deployment/dep failed." + " Error: context deadline expired.\n"
  {
    assert " - deployment/" + "dep" == " - deployment/dep";
    assert " - deployment/dep" + " failed." == " - deployment/dep failed.";
    assert " - deployment/dep failed." + "" == " - deployment/dep failed.";
    ExpiredTail();
  }

  /** Success, four of ten pending. */
  lemma ReadySomePending()
    ensures StatusLine("dep", 10, 4, None) ==
      " - deployment/dep is ready." + " [4/10 deployment(s) still pending]" + "\n"
  {
    assert " - deployment/" + "dep" == " - deployment/dep";
    assert " - deployment/dep" + " is ready." == " - deployment/dep is ready.";
    FourOfTenFragment();
  }

  /** Failure, eight of ten pending: the fragment comes before the error. */
  lemma FailedSomePending()
    ensures StatusLine("dep", 10, 8, Some("context deadline expired")) ==
      " - deployment/dep failed." + " [8/10 deployment(s) still pending]" + " Error: context deadline expired.\n"
  {
    assert " - deployment/" + "dep" == " - deployment/dep";
    assert " - deployment/dep" + " failed." == " - deployment/dep failed.";
    EightOfTenFragment();
    ExpiredTail();
  }

  lemma ExpiredTail()
    ensures StatusTail(Some("context deadline expired")) == " Error: context deadline expired.\n"
  {
    assert " Error: " + "context deadline expired" == " Error: context deadline expired";
  }

  /** The fragment for four of ten pending. */
  lemma FourOfTenFragment()
    ensures PendingMessage(10, 4) == " [4/10 deployment(s) still pending]"
  {
    CountsShown(4, "4");
    assert " [4/10" + PENDING_WORDS == " [4/10 deployment(s) still pending]";
  }

  /** The fragment for eight of ten pending. */
  lemma EightOfTenFragment()
    ensures PendingMessage(10, 8) == " [8/10 deployment(s) still pending]"
  {
    CountsShown(8, "8");
    assert " [8/10" + PENDING_WORDS == " [8/10 deployment(s) still pending]";
  }

  /** The counts part of the fragment for a one-digit pending value out of ten. */
  lemma CountsShown(pending: int, digit: string)
    requires 0 < pending < 10 && digit == [DigitChar(pending)]
    ensures PendingMessage(10, pending) == " [" + digit + "/10" + PENDING_WORDS
  {
    assert IntToString(10) == "10";
    assert " [" + digit + "/" + "10" == " [" + digit + "/10";
  }
}
