/** `verify_line` and the line loop of `verify`: every line of the ledger is
    checked against a cursor that holds the previous line's number, stored
    hash and time stamp, and all lines share one account table. */
module Chain {
  import opened RubyText
  import opened KeyedHash
  import opened Timestamp
  import opened Transactions

  /** What `verify` carries from one line to the next:
      `prev_line_number`, `prev_hash` and `prev_time`. */
  datatype Cursor = Cursor(lineNumber: int, hash: string, time: string)

  /** The cursor before the first line. */
  const Start: Cursor := Cursor(-1, "0", "0")

  /** The check of `verify_line` that failed. */
  datatype LineError =
    | FieldCountError
    | LineNumberError
    | LastHashError
    | TimeStampError
    | TransactionsError
    | CurrentHashError

  /** `[true, line_number, curr_hash, time]`, `[false, nil, nil, nil]`, or the
      exception that `greater_time` raises on a nil comparison. */
  datatype LineResult = Accepted(next: Cursor) | Rejected(error: LineError) | Raised

  /** A line's result together with the account table it leaves behind. */
  datatype StepOutcome = StepOutcome(result: LineResult, accounts: seq<int>)

  // ---------------------------------------------------------------------------
  // The five fields of a line

  function Values(line: string): seq<string>
  {
    Split(line, '|')
  }

  predicate WellFormed(line: string)
  {
    |Values(line)| == 5
  }

  /** `values[0].to_i`. */
  function LineNumberOf(line: string): int
    requires WellFormed(line)
  {
    ToI(Values(line)[0])
  }

  function LastHashOf(line: string): string
    requires WellFormed(line)
  {
    Values(line)[1]
  }

  function TransactionsOf(line: string): string
    requires WellFormed(line)
  {
    Values(line)[2]
  }

  function TimeOf(line: string): string
    requires WellFormed(line)
  {
    Values(line)[3]
  }

  /** `values[4][0..-2]`: the last field without its last character, which is
      the line terminator on every line that has one. */
  function StoredHashOf(line: string): string
    requires WellFormed(line)
  {
    DropLast(Values(line)[4])
  }

  /** The hashed text `"#{line_number}|#{last_hash}|#{transactions}|#{time}"`,
      which renders the parsed line number rather than the field's text. */
  function Canonical(lineNumber: int, lastHash: string, transactions: string, time: string): string
  {
    IntToString(lineNumber) + "|" + lastHash + "|" + transactions + "|" + time
  }

  /** The hashed text splits back into the rendered number, the last hash,
      the records and the time, whenever none of them holds '|' and the time
      is not empty. */
  lemma CanonicalFields(lineNumber: int, lastHash: string, transactions: string, time: string)
    requires '|' !in lastHash && '|' !in transactions && '|' !in time && time != []
    ensures var fs := Split(Canonical(lineNumber, lastHash, transactions, time), '|');
      fs == [IntToString(lineNumber), lastHash, transactions, time] && ToI(fs[0]) == lineNumber
  {
    var fs := [IntToString(lineNumber), lastHash, transactions, time];
    assert Join(fs[3..], '|') == time;
    assert Join(fs[2..], '|') == transactions + "|" + time;
    assert Join(fs[1..], '|') == lastHash + "|" + transactions + "|" + time;
    assert Canonical(lineNumber, lastHash, transactions, time) == Join(fs, '|');
    assert forall k :: 0 <= k < |fs| ==> '|' !in fs[k];
    IntToStringDigits(lineNumber);
    SplitOfJoin(fs, '|');
    ToIOfIntToString(lineNumber);
  }

  /** The hash a line should carry. */
  function ExpectedHash(line: string): string
    requires WellFormed(line)
  {
    HashStr(Canonical(LineNumberOf(line), LastHashOf(line), TransactionsOf(line), TimeOf(line)))
  }

  /** The cursor an accepted line hands to the next one. */
  function CursorOf(line: string): Cursor
    requires WellFormed(line)
  {
    Cursor(LineNumberOf(line), StoredHashOf(line), TimeOf(line))
  }

  /** The checks of `verify_line` against the cursor: five fields, the next
      line number, the previous line's hash, a later time stamp. */
  predicate Follows(c: Cursor, line: string)
  {
    && WellFormed(line)
    && LineNumberOf(line) == c.lineNumber + 1
    && LastHashOf(line) == c.hash
    && GreaterTime(TimeOf(line), c.time) == Returns(true)
  }

  /** The last check of `verify_line`: the line stores its own hash. */
  predicate Sealed(line: string)
  {
    WellFormed(line) && StoredHashOf(line) == ExpectedHash(line)
  }

  // ---------------------------------------------------------------------------
  // One line

  /** `verify_line(line, prev_line_number, prev_hash, prev_time, accounts)` on a
      table value. The checks run in the order of `utils.rb` and the first failure
      decides; the records of the line are applied before the hash check, so a
      line rejected for its hash (or for a negative balance) still leaves its
      records applied. */
  function LineStep(acc: seq<int>, c: Cursor, line: string): (r: StepOutcome)
    requires |acc| == Capacity
    ensures |r.accounts| == Capacity
    ensures r.result.Accepted? <==>
      Follows(c, line) && TransactionsOutcome(acc, TransactionsOf(line)).ok && Sealed(line)
    ensures r.result.Accepted? ==> r.result.next == CursorOf(line) && NonNegative(r.accounts)
    ensures r.result.Accepted? ==>
      Total(r.accounts) == Total(acc) + MintedAll(Split(TransactionsOf(line), ':'))
    ensures r.result.Raised? <==>
      && WellFormed(line)
      && LineNumberOf(line) == c.lineNumber + 1
      && LastHashOf(line) == c.hash
      && GreaterTime(TimeOf(line), c.time).Raises?
    ensures r.result == Rejected(FieldCountError) <==> !WellFormed(line)
    ensures r.result == Rejected(LineNumberError) <==>
      WellFormed(line) && LineNumberOf(line) != c.lineNumber + 1
    ensures Follows(c, line) ==> r.accounts == TransactionsOutcome(acc, TransactionsOf(line)).accounts
    ensures !Follows(c, line) ==> r.accounts == acc
  {
    if !WellFormed(line) then StepOutcome(Rejected(FieldCountError), acc)
    else if LineNumberOf(line) != c.lineNumber + 1 then StepOutcome(Rejected(LineNumberError), acc)
    else if LastHashOf(line) != c.hash then StepOutcome(Rejected(LastHashError), acc)
    else
      match GreaterTime(TimeOf(line), c.time)
      case Raises => StepOutcome(Raised, acc)
      case Returns(later) =>
        if !later then StepOutcome(Rejected(TimeStampError), acc)
        else
          assert Follows(c, line);
          Settle(acc, line)
  }

  /** The last two checks of `verify_line`, on a line that passed the others:
      the records are applied to the table, then the line must hold no failing
      record and carry its own hash. */
  function Settle(acc: seq<int>, line: string): (r: StepOutcome)
    requires |acc| == Capacity && WellFormed(line)
    ensures r.accounts == TransactionsOutcome(acc, TransactionsOf(line)).accounts
    ensures r.result == Rejected(TransactionsError) <==> !TransactionsOutcome(acc, TransactionsOf(line)).ok
    ensures r.result == Rejected(CurrentHashError) <==>
      TransactionsOutcome(acc, TransactionsOf(line)).ok && !Sealed(line)
    ensures r.result.Accepted? <==> TransactionsOutcome(acc, TransactionsOf(line)).ok && Sealed(line)
    ensures r.result.Accepted? ==> r.result.next == CursorOf(line)
  {
    var batch := TransactionsOutcome(acc, TransactionsOf(line));
    if !batch.ok then StepOutcome(Rejected(TransactionsError), batch.accounts)
    else if !Sealed(line) then StepOutcome(Rejected(CurrentHashError), batch.accounts)
    else StepOutcome(Accepted(CursorOf(line)), batch.accounts)
  }

  /** A rejected line names the first check it failed: the previous line's
      hash, then the time stamp, then the records, then its own hash. */
  lemma LineStepError(acc: seq<int>, c: Cursor, line: string)
    requires |acc| == Capacity
    ensures var r := LineStep(acc, c, line).result;
      && (r == Rejected(LastHashError) <==>
            WellFormed(line) && LineNumberOf(line) == c.lineNumber + 1 && LastHashOf(line) != c.hash)
      && (r == Rejected(TimeStampError) <==>
            && WellFormed(line)
            && LineNumberOf(line) == c.lineNumber + 1
            && LastHashOf(line) == c.hash
            && GreaterTime(TimeOf(line), c.time) == Returns(false))
      && (r == Rejected(TransactionsError) <==>
            Follows(c, line) && !TransactionsOutcome(acc, TransactionsOf(line)).ok)
      && (r == Rejected(CurrentHashError) <==>
            Follows(c, line) && TransactionsOutcome(acc, TransactionsOf(line)).ok && !Sealed(line))
  {
  }

  /** The line a writer of the ledger appends after cursor c: the next number,
      c's hash, the records and the time, then the hash of all that and a line
      feed. */
  function Block(c: Cursor, transactions: string, time: string): string
  {
    var n := c.lineNumber + 1;
    Join([IntToString(n), c.hash, transactions, time, HashStr(Canonical(n, c.hash, transactions, time)) + "\n"], '|')
  }

  /** The fields of a block read back as the parts it was written from. */
  lemma BlockFields(c: Cursor, transactions: string, time: string)
    requires '|' !in c.hash && '|' !in transactions && '|' !in time
    ensures var line := Block(c, transactions, time);
      && WellFormed(line)
      && LineNumberOf(line) == c.lineNumber + 1
      && LastHashOf(line) == c.hash
      && TransactionsOf(line) == transactions
      && TimeOf(line) == time
      && StoredHashOf(line) == HashStr(Canonical(c.lineNumber + 1, c.hash, transactions, time))
  {
    var n := c.lineNumber + 1;
    var h := HashStr(Canonical(n, c.hash, transactions, time));
    var last := h + "\n";
    HashPlain(h, last);
    FiveFields(IntToString(n), c.hash, transactions, time, last);
    ToIOfIntToString(n);
    IntToStringDigits(n);
    assert DropLast(last) == h;
    assert Block(c, transactions, time) == Join([IntToString(n), c.hash, transactions, time, last], '|');
  }

  /** Every block written after c is accepted after c, provided its parts hold
      no '|', its time is later than c's and its records pass; the cursor moves
      to the block's number, hash and time. */
  lemma BlockAccepted(acc: seq<int>, c: Cursor, transactions: string, time: string)
    requires |acc| == Capacity
    requires '|' !in c.hash && '|' !in transactions && '|' !in time
    requires GreaterTime(time, c.time) == Returns(true)
    requires TransactionsOutcome(acc, transactions).ok
    ensures var h := HashStr(Canonical(c.lineNumber + 1, c.hash, transactions, time));
      LineStep(acc, c, Block(c, transactions, time))
        == StepOutcome(Accepted(Cursor(c.lineNumber + 1, h, time)), TransactionsOutcome(acc, transactions).accounts)
  {
    BlockFields(c, transactions, time);
  }

  /** Five fields without '|', the last one not empty, joined into a line,
      read back as those fields. */
  lemma FiveFields(f0: string, f1: string, f2: string, f3: string, f4: string)
    requires '|' !in f0 && '|' !in f1 && '|' !in f2 && '|' !in f3 && '|' !in f4 && f4 != []
    ensures var line := Join([f0, f1, f2, f3, f4], '|');
      && WellFormed(line)
      && LineNumberOf(line) == ToI(f0)
      && LastHashOf(line) == f1
      && TransactionsOf(line) == f2
      && TimeOf(line) == f3
      && StoredHashOf(line) == DropLast(f4)
  {
    var fs := [f0, f1, f2, f3, f4];
    assert forall k :: 0 <= k < |fs| ==> '|' !in fs[k];
    SplitOfJoin(fs, '|');
  }

  /** A hash followed by a line feed holds no '|'. */
  lemma HashPlain(h: string, last: string)
    requires forall k :: 0 <= k < |h| ==> IsHexDigit(h[k])
    requires last == h + "\n"
    ensures '|' !in last && last != []
  {
    assert forall k :: 0 <= k < |h| ==> last[k] == h[k];
  }

  /** `verify_line(line, prev_line_number, prev_hash, prev_time, accounts)`,
      updating the shared table in place. */
  method VerifyLine(line: string, c: Cursor, accounts: Accounts) returns (r: LineResult)
    requires accounts.balances.Length == Capacity
    modifies accounts.balances
    ensures StepOutcome(r, accounts.balances[..]) == LineStep(old(accounts.balances[..]), c, line)
  {
    var values := Split(line, '|');
    if |values| != 5 {
      return Rejected(FieldCountError);
    }
    var lineNumber := ToI(values[0]);
    var lastHash := values[1];
    var transactions := values[2];
    var time := values[3];
    var currHash := DropLast(values[4]);
    if lineNumber != c.lineNumber + 1 {
      return Rejected(LineNumberError);
    } else if lastHash != c.hash {
      return Rejected(LastHashError);
    }
    var later := GreaterTime(time, c.time);
    if later.Raises? {
      return Raised;
    } else if !later.value {
      return Rejected(TimeStampError);
    }
    var ok := accounts.VerifyTransactions(transactions);
    if !ok {
      return Rejected(TransactionsError);
    } else if currHash != HashStr(Canonical(lineNumber, lastHash, transactions, time)) {
      return Rejected(CurrentHashError);
    }
    return Accepted(Cursor(lineNumber, currHash, time));
  }

  // ---------------------------------------------------------------------------
  // The line loop of verify

  /** How the loop ends: past the last line, at the first rejected line (which
      `verify` prints before it breaks), or with the exception that escapes
      from a line. */
  datatype Verdict = Completed | Stopped(at: nat, error: LineError) | Crashed(at: nat)

  datatype RunOutcome = RunOutcome(verdict: Verdict, accounts: seq<int>)

  /** The number of lines accepted before the loop ended. */
  function Reached(v: Verdict, count: nat): nat
  {
    match v
    case Completed => count
    case Stopped(k, _) => k
    case Crashed(k) => k
  }

  /** The table before the first line: every entry nil, which reads as 0. */
  function Zeros(): (acc: seq<int>)
    ensures |acc| == Capacity && NonNegative(acc)
    ensures forall a :: 0 <= a < |acc| ==> acc[a] == 0
  {
    seq(Capacity, _ => 0)
  }

  /** The loop from line i on, with cursor c and table acc. */
  function RunFrom(acc: seq<int>, c: Cursor, lines: seq<string>, i: nat): (r: RunOutcome)
    requires |acc| == Capacity && i <= |lines|
    ensures |r.accounts| == Capacity
    ensures i <= Reached(r.verdict, |lines|) <= |lines|
    ensures !r.verdict.Completed? ==> Reached(r.verdict, |lines|) < |lines|
    decreases |lines| - i
  {
    if i == |lines| then RunOutcome(Completed, acc)
    else
      var step := LineStep(acc, c, lines[i]);
      match step.result
      case Accepted(next) => RunFrom(step.accounts, next, lines, i + 1)
      case Rejected(e) => RunOutcome(Stopped(i, e), step.accounts)
      case Raised => RunOutcome(Crashed(i), step.accounts)
  }

  /** The loop of `verify` over the lines of a ledger. When it goes through
      every line, no balance is negative at the end. */
  function Run(lines: seq<string>): (r: RunOutcome)
    ensures |r.accounts| == Capacity && Reached(r.verdict, |lines|) <= |lines|
    ensures r.verdict == Completed ==> NonNegative(r.accounts)
  {
    var r := RunFrom(Zeros(), Start, lines, 0);
    if r.verdict == Completed then
      RunPrefix(Zeros(), Start, lines, 0, |lines|);
      assert lines[..|lines|] == lines;
      r
    else r
  }

  /** Lines i..k-1 each pass the checks that do not read the table, the first
      one against c and every later one against the line before it. */
  predicate Chained(c: Cursor, lines: seq<string>, i: nat, k: nat)
    requires i <= k <= |lines|
    decreases k - i
  {
    i == k || (Follows(c, lines[i]) && Chained(CursorOf(lines[i]), lines, i + 1, k))
  }

  /** Every line before the one where the loop ended is chained to the one
      before it. */
  lemma {:induction false} RunChained(acc: seq<int>, c: Cursor, lines: seq<string>, i: nat)
    requires |acc| == Capacity && i <= |lines|
    ensures Chained(c, lines, i, Reached(RunFrom(acc, c, lines, i).verdict, |lines|))
    decreases |lines| - i
  {
    if i < |lines| {
      var step := LineStep(acc, c, lines[i]);
      if step.result.Accepted? {
        RunChained(step.accounts, step.result.next, lines, i + 1);
      }
    }
  }

  /** The j-th chained line is numbered j - i up from the cursor's successor. */
  lemma {:induction false} ChainedNumber(c: Cursor, lines: seq<string>, i: nat, k: nat, j: nat)
    requires i <= j < k <= |lines| && Chained(c, lines, i, k)
    ensures WellFormed(lines[j]) && LineNumberOf(lines[j]) == c.lineNumber + 1 + (j - i)
    decreases j - i
  {
    assert Follows(c, lines[i]);
    if j > i {
      ChainedNumber(CursorOf(lines[i]), lines, i + 1, k, j);
    }
  }

  /** A chained line after the first follows the cursor of the line before it. */
  lemma {:induction false} ChainedLink(c: Cursor, lines: seq<string>, i: nat, k: nat, j: nat)
    requires i < j < k <= |lines| && Chained(c, lines, i, k)
    ensures WellFormed(lines[j - 1]) && Follows(CursorOf(lines[j - 1]), lines[j])
    decreases j - i
  {
    var next := CursorOf(lines[i]);
    assert Chained(next, lines, i + 1, k);
    if j > i + 1 {
      ChainedLink(next, lines, i + 1, k, j);
    }
  }

  /** Every line before the one where the loop ended stores its own hash. */
  lemma {:induction false} RunSealed(acc: seq<int>, c: Cursor, lines: seq<string>, i: nat)
    requires |acc| == Capacity && i <= |lines|
    ensures forall j :: i <= j < Reached(RunFrom(acc, c, lines, i).verdict, |lines|) ==> Sealed(lines[j])
    decreases |lines| - i
  {
    if i < |lines| {
      var step := LineStep(acc, c, lines[i]);
      if step.result.Accepted? {
        var rest := RunFrom(step.accounts, step.result.next, lines, i + 1);
        assert RunFrom(acc, c, lines, i) == rest;
        var k := Reached(rest.verdict, |lines|);
        RunSealed(step.accounts, step.result.next, lines, i + 1);
        forall j | i <= j < k
          ensures Sealed(lines[j])
        {
          if j == i {
            assert Sealed(lines[i]);
          }
        }
      } else {
        assert Reached(RunFrom(acc, c, lines, i).verdict, |lines|) == i;
      }
    }
  }

  /** After the lines 0..k-1 have been accepted: the line numbers are exactly
      0..k-1, the first line names the hash "0" and every later one the hash
      stored on the line before it, the time stamps strictly increase, and
      every stored hash is the hash of its line. */
  lemma AcceptedLines(lines: seq<string>)
    ensures var k := Reached(Run(lines).verdict, |lines|);
      && (forall j :: 0 <= j < k ==> WellFormed(lines[j]) && LineNumberOf(lines[j]) == j)
      && (0 < k ==> WellFormed(lines[0]) && LastHashOf(lines[0]) == "0")
      && (forall j {:trigger lines[j]} :: 0 < j < k ==>
            && WellFormed(lines[j - 1]) && WellFormed(lines[j])
            && LastHashOf(lines[j]) == StoredHashOf(lines[j - 1])
            && GreaterTime(TimeOf(lines[j]), TimeOf(lines[j - 1])) == Returns(true))
      && (forall j :: 0 <= j < k ==> Sealed(lines[j]))
  {
    var k := Reached(Run(lines).verdict, |lines|);
    RunChained(Zeros(), Start, lines, 0);
    RunSealed(Zeros(), Start, lines, 0);
    forall j | 0 <= j < k
      ensures WellFormed(lines[j]) && LineNumberOf(lines[j]) == j
    {
      ChainedNumber(Start, lines, 0, k, j);
    }
    if 0 < k {
      assert Follows(Start, lines[0]);
    }
    forall j {:trigger lines[j]} | 0 < j < k
      ensures && WellFormed(lines[j - 1]) && WellFormed(lines[j])
              && LastHashOf(lines[j]) == StoredHashOf(lines[j - 1])
              && GreaterTime(TimeOf(lines[j]), TimeOf(lines[j - 1])) == Returns(true)
    {
      ChainedLink(Start, lines, 0, k, j);
    }
  }

  /** An accepted line hands its table and cursor to the rest of the run. */
  lemma RunHead(acc: seq<int>, c: Cursor, lines: seq<string>, i: nat)
    requires |acc| == Capacity && i < |lines|
    ensures var step := LineStep(acc, c, lines[i]);
      step.result.Accepted? ==> RunFrom(acc, c, lines, i) == RunFrom(step.accounts, step.result.next, lines, i + 1)
    ensures !LineStep(acc, c, lines[i]).result.Accepted? ==> Reached(RunFrom(acc, c, lines, i).verdict, |lines|) == i
  {
  }

  /** Cutting the lines at a point the loop reached gives a run that completes,
      and no balance is negative at its end. */
  lemma {:induction false} RunPrefix(acc: seq<int>, c: Cursor, lines: seq<string>, i: nat, m: nat)
    requires |acc| == Capacity && i <= |lines| && i <= m <= Reached(RunFrom(acc, c, lines, i).verdict, |lines|)
    ensures RunFrom(acc, c, lines[..m], i).verdict == Completed
    ensures i < m || NonNegative(acc) ==> NonNegative(RunFrom(acc, c, lines[..m], i).accounts)
    decreases |lines| - i
  {
    var cut := lines[..m];
    if i < m {
      RunHead(acc, c, lines, i);
      var step := LineStep(acc, c, lines[i]);
      assert cut[i] == lines[i];
      RunHead(acc, c, cut, i);
      RunPrefix(step.accounts, step.result.next, lines, i + 1, m);
    } else {
      assert RunFrom(acc, c, cut, i) == RunOutcome(Completed, acc);
    }
  }

  /** The cursor the loop holds when it reaches line k, having started at line
      i with cursor c and accepted every line in between: an accepted line
      leaves its own number, stored hash and time behind. */
  function CursorBefore(c: Cursor, lines: seq<string>, i: nat, k: nat): Cursor
    requires i <= k <= |lines|
  {
    if k == i then c
    else if WellFormed(lines[k - 1]) then CursorOf(lines[k - 1])
    else Start
  }

  /** One accepted line moves the cut run forward by one position. */
  lemma CutHead(acc: seq<int>, c: Cursor, lines: seq<string>, i: nat, k: nat)
    requires |acc| == Capacity && i < k <= |lines|
    requires LineStep(acc, c, lines[i]).result.Accepted?
    ensures var step := LineStep(acc, c, lines[i]);
      RunFrom(acc, c, lines[..k], i) == RunFrom(step.accounts, step.result.next, lines[..k], i + 1)
  {
    var cut := lines[..k];
    assert cut[i] == lines[i];
    RunHead(acc, c, cut, i);
  }

  /** Accepting line i with the cursor it leaves moves the cursor before line k
      forward by one position. */
  lemma CursorHead(c: Cursor, next: Cursor, lines: seq<string>, i: nat, k: nat)
    requires i < k <= |lines|
    requires WellFormed(lines[i]) && next == CursorOf(lines[i])
    ensures CursorBefore(next, lines, i + 1, k) == CursorBefore(c, lines, i, k)
  {
  }

  /** A run that does not complete stops at a line that fails: the line the
      run records holds the accepted lines before it, and that line, read with
      the table and cursor they leave, gives the stopping table and exactly the
      recorded error (or the raise). */
  predicate StopsAtFailingLine(acc: seq<int>, c: Cursor, lines: seq<string>, i: nat)
    requires |acc| == Capacity && i <= |lines|
  {
    var r := RunFrom(acc, c, lines, i);
    var k := Reached(r.verdict, |lines|);
    !r.verdict.Completed? ==>
      && k < |lines|
      && var step := LineStep(RunFrom(acc, c, lines[..k], i).accounts, CursorBefore(c, lines, i, k), lines[k]);
         && step.accounts == r.accounts
         && (r.verdict.Stopped? ==> step.result == Rejected(r.verdict.error))
         && (r.verdict.Crashed? ==> step.result == Raised)
  }

  /** When line i is accepted, the stopping line of the rest of the run is the
      stopping line of the whole run. */
  lemma StopsAfterAccepted(acc: seq<int>, c: Cursor, lines: seq<string>, i: nat)
    requires |acc| == Capacity && i < |lines|
    requires LineStep(acc, c, lines[i]).result.Accepted?
    requires var step := LineStep(acc, c, lines[i]);
      StopsAtFailingLine(step.accounts, step.result.next, lines, i + 1)
    ensures StopsAtFailingLine(acc, c, lines, i)
  {
    var step := LineStep(acc, c, lines[i]);
    var next := step.result.next;
    RunHead(acc, c, lines, i);
    var r := RunFrom(acc, c, lines, i);
    assert r == RunFrom(step.accounts, next, lines, i + 1);
    if !r.verdict.Completed? {
      var k := Reached(r.verdict, |lines|);
      CutHead(acc, c, lines, i, k);
      CursorHead(c, next, lines, i, k);
    }
  }

  /** Every run that does not complete stops at a line that fails. */
  lemma {:induction false} RunStopsAt(acc: seq<int>, c: Cursor, lines: seq<string>, i: nat)
    requires |acc| == Capacity && i <= |lines|
    ensures StopsAtFailingLine(acc, c, lines, i)
    decreases |lines| - i
  {
    if i < |lines| {
      var step := LineStep(acc, c, lines[i]);
      if step.result.Accepted? {
        RunStopsAt(step.accounts, step.result.next, lines, i + 1);
        StopsAfterAccepted(acc, c, lines, i);
      } else {
        RunHead(acc, c, lines, i);
        assert RunFrom(acc, c, lines[..i], i) == RunOutcome(Completed, acc);
      }
    }
  }

  /** A run over a whole file that stops, stops at a line that fails when read
      after the lines before it. */
  lemma StoppingLine(lines: seq<string>)
    ensures var r := Run(lines);
      && (r.verdict.Stopped? ==>
            && r.verdict.at < |lines|
            && var step := LineStep(Run(lines[..r.verdict.at]).accounts, CursorBefore(Start, lines, 0, r.verdict.at), lines[r.verdict.at]);
               step.result == Rejected(r.verdict.error) && step.accounts == r.accounts)
      && (r.verdict.Crashed? ==>
            && r.verdict.at < |lines|
            && var step := LineStep(Run(lines[..r.verdict.at]).accounts, CursorBefore(Start, lines, 0, r.verdict.at), lines[r.verdict.at]);
               step.result == Raised && step.accounts == r.accounts)
  {
    RunStopsAt(Zeros(), Start, lines, 0);
  }

  /** No balance is negative after any number of accepted lines. */
  lemma BalancesNonNegative(lines: seq<string>, m: nat)
    requires m <= Reached(Run(lines).verdict, |lines|)
    ensures Run(lines[..m]).verdict == Completed
    ensures NonNegative(Run(lines[..m]).accounts)
  {
    RunPrefix(Zeros(), Start, lines, 0, m);
  }

  /** The coins the records of a line create, when they all pass the pattern. */
  function LineMinted(line: string): int
  {
    if !WellFormed(line) then 0
    else
      var data := Split(TransactionsOf(line), ':');
      if AllValid(data) then MintedAll(data) else 0
  }

  /** The coins the lines from i on create. */
  function MintedFrom(lines: seq<string>, i: nat): int
    requires i <= |lines|
    decreases |lines| - i
  {
    if i == |lines| then 0 else LineMinted(lines[i]) + MintedFrom(lines, i + 1)
  }

  /** In a ledger whose every line is accepted, the total of all balances grows
      by exactly what the SYSTEM records create: transfers move coins, and
      nothing else adds or removes any. */
  lemma {:induction false} RunTotal(acc: seq<int>, c: Cursor, lines: seq<string>, i: nat)
    requires |acc| == Capacity && i <= |lines|
    requires RunFrom(acc, c, lines, i).verdict == Completed
    ensures Total(RunFrom(acc, c, lines, i).accounts) == Total(acc) + MintedFrom(lines, i)
    decreases |lines| - i
  {
    if i < |lines| {
      var step := LineStep(acc, c, lines[i]);
      RunTotal(step.accounts, step.result.next, lines, i + 1);
    }
  }

  /** `verify(filename)` over the lines of the file: reads every line with the
      cursor threaded from (-1, "0", "0") and the table shared, and stops at the
      first line that is not accepted. */
  method Verify(lines: seq<string>) returns (v: Verdict)
    ensures v == Run(lines).verdict
    ensures forall j :: 0 <= j < Reached(v, |lines|) ==> WellFormed(lines[j]) && LineNumberOf(lines[j]) == j
    ensures 0 < Reached(v, |lines|) ==> WellFormed(lines[0]) && LastHashOf(lines[0]) == "0"
    ensures forall j {:trigger lines[j]} :: 0 < j < Reached(v, |lines|) ==>
      && WellFormed(lines[j - 1]) && WellFormed(lines[j])
      && LastHashOf(lines[j]) == StoredHashOf(lines[j - 1])
      && GreaterTime(TimeOf(lines[j]), TimeOf(lines[j - 1])) == Returns(true)
    ensures forall j :: 0 <= j < Reached(v, |lines|) ==> Sealed(lines[j])
    ensures v.Stopped? ==>
      && v.at < |lines|
      && LineStep(Run(lines[..v.at]).accounts, CursorBefore(Start, lines, 0, v.at), lines[v.at]).result == Rejected(v.error)
    ensures v.Crashed? ==>
      && v.at < |lines|
      && LineStep(Run(lines[..v.at]).accounts, CursorBefore(Start, lines, 0, v.at), lines[v.at]).result == Raised
  {
    var accounts := new Accounts();
    var cursor := Start;
    var i := 0;
    v := Completed;
    while i < |lines|
      invariant 0 <= i <= |lines|
      invariant accounts.balances.Length == Capacity
      invariant RunFrom(accounts.balances[..], cursor, lines, i) == Run(lines)
      invariant v == Completed
    {
      var r := VerifyLine(lines[i], cursor, accounts);
      match r {
        case Accepted(next) =>
          cursor := next;
        case Rejected(e) =>
          v := Stopped(i, e);
          break;
        case Raised =>
          v := Crashed(i);
          break;
      }
      i := i + 1;
    }
    AcceptedLines(lines);
    StoppingLine(lines);
  }
}
