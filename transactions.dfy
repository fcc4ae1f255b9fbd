/** Transaction records (`valid_transaction_pattern?`, `apply_transaction`)
    and the batch check over one block (`varify_transactions`), acting on the
    shared account table. */
module Transactions {
  import opened RubyText

  /** The number of entries of the account table: account ids have six digits. */
  const Capacity: int := 1_000_000

  /** `valid_transaction_pattern?`: a six-digit source account or the word
      SYSTEM, then '>', a six-digit destination account, '(', one or more
      digits of amount, ')', and nothing else. */
  predicate ValidTransactionPattern(t: string)
  {
    && |t| >= 16
    && (AllDigits(t[..6]) || t[..6] == "SYSTEM")
    && t[6] == '>'
    && AllDigits(t[7..13])
    && t[13] == '('
    && AllDigits(t[14..|t| - 1])
    && t[|t| - 1] == ')'
  }

  /** A record assembled from its three parts. */
  function Record(source: string, dest: string, amount: string): string
  {
    source + ">" + dest + "(" + amount + ")"
  }

  /** Every record assembled from well-formed parts matches the pattern, and
      the fixed offsets that `apply_transaction` reads give the parts back. */
  lemma PatternOfRecord(source: string, dest: string, amount: string)
    requires |source| == 6 && (AllDigits(source) || source == "SYSTEM")
    requires |dest| == 6 && AllDigits(dest)
    requires |amount| >= 1 && AllDigits(amount)
    ensures var t := Record(source, dest, amount);
      && ValidTransactionPattern(t)
      && t[..6] == source && t[7..13] == dest && t[14..|t| - 1] == amount
  {
    var t := Record(source, dest, amount);
    assert t[..6] == source;
    assert t[7..13] == dest;
    assert t[14..|t| - 1] == amount;
  }

  /** A record that matches the pattern is built from digits, the letters of
      SYSTEM, '>' and the parentheses, so it holds none of the separators
      '|' and ':' of a line and no line feed. */
  lemma PatternCharacters(t: string)
    requires ValidTransactionPattern(t)
    ensures forall i :: 0 <= i < |t| ==> IsDigit(t[i]) || t[i] in "SYTEM>()"
    ensures '|' !in t && ':' !in t && '\n' !in t
  {
    forall i | 0 <= i < |t|
      ensures IsDigit(t[i]) || t[i] in "SYTEM>()"
    {
      if i < 6 {
        assert t[i] == t[..6][i];
      } else if 7 <= i < 13 {
        assert t[i] == t[7..13][i - 7];
      } else if 14 <= i < |t| - 1 {
        assert t[i] == t[14..|t| - 1][i - 14];
      }
    }
  }

  /** Every string that matches the pattern is such a record. */
  lemma RecordOfPattern(t: string)
    requires ValidTransactionPattern(t)
    ensures t == Record(t[..6], t[7..13], t[14..|t| - 1])
  {
    assert t == t[..6] + [t[6]] + t[7..13] + [t[13]] + t[14..|t| - 1] + [t[|t| - 1]];
  }

  // ---------------------------------------------------------------------------
  // The fields that apply_transaction reads at fixed offsets

  /** The `to_i` of a six-digit account field: an index into the table. */
  function AccountId(field: string): (id: int)
    requires |field| == 6 && AllDigits(field)
    ensures 0 <= id < Capacity
    ensures id == DecimalValue(field)
  {
    ToIOfDigits(field);
    DecimalValueBound(field, Pow10(6));
    ToI(field)
  }

  /** The record mints new coins: its source is SYSTEM. */
  predicate IsMint(t: string)
    requires ValidTransactionPattern(t)
  {
    t[..6] == "SYSTEM"
  }

  /** `transaction[0...6].to_i` for a record that does not mint. */
  function Source(t: string): int
    requires ValidTransactionPattern(t) && !IsMint(t)
  {
    AccountId(t[..6])
  }

  /** `transaction[7...13].to_i`. */
  function Dest(t: string): int
    requires ValidTransactionPattern(t)
  {
    AccountId(t[7..13])
  }

  /** `transaction[14...-1].to_i`: the digits between the parentheses. */
  function Amount(t: string): (n: int)
    requires ValidTransactionPattern(t)
    ensures n == DecimalValue(t[14..|t| - 1]) && n >= 0
  {
    ToIOfDigits(t[14..|t| - 1]);
    ToI(t[14..|t| - 1])
  }

  // ---------------------------------------------------------------------------
  // The account table as a value

  predicate NonNegative(acc: seq<int>)
  {
    forall a :: 0 <= a < |acc| ==> acc[a] >= 0
  }

  /** The sum of all balances. */
  ghost function Total(acc: seq<int>): int
  {
    if acc == [] then 0 else acc[0] + Total(acc[1..])
  }

  lemma {:induction false} TotalUpdate(acc: seq<int>, i: nat, v: int)
    requires i < |acc|
    ensures Total(acc[i := v]) == Total(acc) - acc[i] + v
    decreases |acc|
  {
    if i == 0 {
      assert acc[i := v][1..] == acc[1..];
    } else {
      TotalUpdate(acc[1..], i - 1, v);
      assert acc[i := v][1..] == acc[1..][i - 1 := v];
    }
  }

  /** Moves amount from account src (unless the record mints) to account dst:
      the source account is debited first, then the destination credited. Only those
      two entries change; a transfer keeps the total of all balances, and
      minting adds the amount to it. */
  function Transfer(acc: seq<int>, mint: bool, src: int, dst: int, amount: int): (r: seq<int>)
    requires 0 <= src < |acc| && 0 <= dst < |acc|
    ensures |r| == |acc|
    ensures forall a :: 0 <= a < |acc| && a != dst && (mint || a != src) ==> r[a] == acc[a]
    ensures mint ==> r[dst] == acc[dst] + amount
    ensures !mint && src != dst ==> r[src] == acc[src] - amount && r[dst] == acc[dst] + amount
    ensures !mint && src == dst ==> r == acc
    ensures Total(r) == Total(acc) + (if mint then amount else 0)
  {
    if mint then
      TotalUpdate(acc, dst, acc[dst] + amount);
      acc[dst := acc[dst] + amount]
    else
      var debited := acc[src := acc[src] - amount];
      TotalUpdate(acc, src, acc[src] - amount);
      TotalUpdate(debited, dst, debited[dst] + amount);
      debited[dst := debited[dst] + amount]
  }

  /** The table after `apply_transaction(t, accounts)`: a SYSTEM record
      credits the destination with the amount, any other record moves the
      amount from the source account to the destination. */
  function Applied(acc: seq<int>, t: string): (r: seq<int>)
    requires |acc| == Capacity && ValidTransactionPattern(t)
    ensures |r| == Capacity
    ensures IsMint(t) ==> r[Dest(t)] == acc[Dest(t)] + Amount(t)
    ensures IsMint(t) ==> forall a :: 0 <= a < Capacity && a != Dest(t) ==> r[a] == acc[a]
    ensures !IsMint(t) && Source(t) != Dest(t) ==>
      r[Source(t)] == acc[Source(t)] - Amount(t) && r[Dest(t)] == acc[Dest(t)] + Amount(t)
    ensures !IsMint(t) ==> forall a :: 0 <= a < Capacity && a != Source(t) && a != Dest(t) ==> r[a] == acc[a]
    ensures !IsMint(t) && Source(t) == Dest(t) ==> r == acc
    ensures Total(r) == Total(acc) + Minted(t)
  {
    Transfer(acc, IsMint(t), if IsMint(t) then 0 else Source(t), Dest(t), Amount(t))
  }

  /** The coins a record creates: its amount when it mints, none otherwise. */
  function Minted(t: string): int
    requires ValidTransactionPattern(t)
  {
    if IsMint(t) then Amount(t) else 0
  }

  // ---------------------------------------------------------------------------
  // A batch of records

  predicate AllValid(ts: seq<string>)
  {
    forall k :: 0 <= k < |ts| ==> ValidTransactionPattern(ts[k])
  }

  /** The table after applying every record of ts, in order. */
  function ApplyAll(acc: seq<int>, ts: seq<string>): (r: seq<int>)
    requires |acc| == Capacity && AllValid(ts)
    ensures |r| == Capacity
  {
    if ts == [] then acc else Applied(ApplyAll(acc, ts[..|ts| - 1]), ts[|ts| - 1])
  }

  /** Some record of ts names account a as its destination, or as its source
      when it does not mint. */
  predicate Touched(ts: seq<string>, a: int)
    requires AllValid(ts)
  {
    exists k :: 0 <= k < |ts| && (a == Dest(ts[k]) || (!IsMint(ts[k]) && a == Source(ts[k])))
  }

  /** A batch leaves every account that none of its records names as it was. */
  lemma {:induction false} ApplyAllUntouched(acc: seq<int>, ts: seq<string>, a: int)
    requires |acc| == Capacity && AllValid(ts) && 0 <= a < Capacity && !Touched(ts, a)
    ensures ApplyAll(acc, ts)[a] == acc[a]
    decreases |ts|
  {
    if ts != [] {
      var init := ts[..|ts| - 1];
      assert forall k :: 0 <= k < |init| ==> init[k] == ts[k];
      ApplyAllUntouched(acc, init, a);
    }
  }

  /** One more record of a batch: the longer prefix is still valid, and its
      table is the shorter prefix's table with the record applied. */
  lemma ApplyAllStep(acc: seq<int>, ts: seq<string>, i: nat)
    requires |acc| == Capacity && i < |ts|
    requires AllValid(ts[..i]) && ValidTransactionPattern(ts[i])
    ensures AllValid(ts[..i + 1])
    ensures ApplyAll(acc, ts[..i + 1]) == Applied(ApplyAll(acc, ts[..i]), ts[i])
  {
    var longer := ts[..i + 1];
    assert longer[..i] == ts[..i];
    assert forall k :: 0 <= k < i ==> longer[k] == ts[..i][k];
  }

  /** The coins a batch creates. */
  function MintedAll(ts: seq<string>): int
    requires AllValid(ts)
  {
    if ts == [] then 0 else MintedAll(ts[..|ts| - 1]) + Minted(ts[|ts| - 1])
  }

  /** Applying a batch changes the total by exactly what the batch mints. */
  lemma {:induction false} ApplyAllTotal(acc: seq<int>, ts: seq<string>)
    requires |acc| == Capacity && AllValid(ts)
    ensures Total(ApplyAll(acc, ts)) == Total(acc) + MintedAll(ts)
    decreases |ts|
  {
    if ts != [] {
      ApplyAllTotal(acc, ts[..|ts| - 1]);
    }
  }

  /** The position of the first record that fails the pattern, or |ts|. */
  function FirstInvalid(ts: seq<string>): (k: nat)
    ensures k <= |ts|
    ensures forall j :: 0 <= j < k ==> ValidTransactionPattern(ts[j])
    ensures k < |ts| ==> !ValidTransactionPattern(ts[k])
  {
    if ts == [] || !ValidTransactionPattern(ts[0]) then 0 else 1 + FirstInvalid(ts[1..])
  }

  /** The first invalid position is the end of any all-valid prefix that is
      followed by an invalid record or by nothing. */
  lemma {:induction false} FirstInvalidAt(ts: seq<string>, k: nat)
    requires k <= |ts| && AllValid(ts[..k])
    requires k < |ts| ==> !ValidTransactionPattern(ts[k])
    ensures FirstInvalid(ts) == k
    decreases k
  {
    if k > 0 {
      assert ts[..k][0] == ts[0];
      assert ts[1..][..k - 1] == ts[..k][1..];
      FirstInvalidAt(ts[1..], k - 1);
    }
  }

  /** What `varify_transactions` answers, and the table it leaves behind. */
  datatype BatchResult = BatchResult(ok: bool, accounts: seq<int>)

  /** `varify_transactions(transactions, accounts)` on a table value: split on
      ':'; no records at all fail; the records are applied in order until the
      first one that fails the pattern, which fails the batch and leaves the
      earlier ones applied; otherwise the batch fails exactly when some
      balance is negative once every record is applied, so a balance may dip
      below zero in the middle of the batch. */
  function TransactionsOutcome(acc: seq<int>, transactions: string): (r: BatchResult)
    requires |acc| == Capacity
    ensures |r.accounts| == Capacity
    ensures var data := Split(transactions, ':');
      && (r.ok <==> data != [] && AllValid(data) && NonNegative(ApplyAll(acc, data)))
      && (data == [] ==> r.accounts == acc)
      && (data != [] ==> r.accounts == ApplyAll(acc, data[..FirstInvalid(data)]))
    ensures r.ok ==> NonNegative(r.accounts)
    ensures r.ok ==> Total(r.accounts) == Total(acc) + MintedAll(Split(transactions, ':'))
  {
    var data := Split(transactions, ':');
    if data == [] then BatchResult(false, acc)
    else
      var k := FirstInvalid(data);
      var after := ApplyAll(acc, data[..k]);
      if k == |data| then
        assert data[..k] == data;
        ApplyAllTotal(acc, data);
        BatchResult(NonNegative(after), after)
      else
        BatchResult(false, after)
  }

  // ---------------------------------------------------------------------------
  // The account table as `utils.rb` keeps it: one array, updated in place

  class Accounts {
    /** Ruby's `accounts` array. An entry the Ruby code has never written is nil,
        and nil reads as 0 wherever it is read, so every entry starts at 0. */
    const balances: array<int>

    constructor ()
      ensures balances.Length == Capacity && fresh(balances)
      ensures balances[..] == seq(Capacity, _ => 0)
    {
      balances := new int[Capacity](_ => 0);
    }

    /** `apply_transaction(transaction, accounts)`; its only caller has
        already checked the pattern. */
    method ApplyTransaction(transaction: string)
      requires balances.Length == Capacity && ValidTransactionPattern(transaction)
      modifies balances
      ensures balances[..] == Applied(old(balances[..]), transaction)
    {
      var a2 := Dest(transaction);
      var amount := Amount(transaction);
      if transaction[..6] != "SYSTEM" {
        var a1 := Source(transaction);
        Move(false, a1, a2, amount);
      } else {
        Move(true, 0, a2, amount);
      }
    }

    /** The two writes of `apply_transaction`: debit src unless the record
        mints, then credit dst. */
    method Move(mint: bool, src: int, dst: int, amount: int)
      requires 0 <= src < balances.Length && 0 <= dst < balances.Length
      modifies balances
      ensures balances[..] == Transfer(old(balances[..]), mint, src, dst, amount)
    {
      if !mint {
        balances[src] := balances[src] - amount;
      }
      balances[dst] := balances[dst] + amount;
    }

    /** The scan at the end of `varify_transactions`: is every balance
        non-negative? */
    method NoNegativeBalance() returns (ok: bool)
      ensures ok == NonNegative(balances[..])
    {
      var a := 0;
      while a < balances.Length
        invariant 0 <= a <= balances.Length
        invariant forall b :: 0 <= b < a ==> balances[b] >= 0
      {
        if balances[a] < 0 {
          assert balances[..][a] < 0;
          return false;
        }
        a := a + 1;
      }
      return true;
    }

    /** `varify_transactions(transactions, accounts)`. */
    method VerifyTransactions(transactions: string) returns (ok: bool)
      requires balances.Length == Capacity
      modifies balances
      ensures BatchResult(ok, balances[..]) == TransactionsOutcome(old(balances[..]), transactions)
    {
      ghost var before := balances[..];
      var data := Split(transactions, ':');
      if |data| == 0 {
        return false;
      }
      var k := ApplyRecords(data);
      ghost var after := ApplyAll(before, data[..k]);
      if k < |data| {
        assert TransactionsOutcome(before, transactions) == BatchResult(false, after);
        return false;
      }
      assert data[..k] == data;
      ok := NoNegativeBalance();
      assert TransactionsOutcome(before, transactions) == BatchResult(NonNegative(after), after);
    }

    /** The loop of `varify_transactions`: applies the records in order and
        stops at the first one that fails the pattern, answering its position
        (or the number of records when all of them match). */
    method ApplyRecords(data: seq<string>) returns (k: nat)
      requires balances.Length == Capacity
      modifies balances
      ensures k == FirstInvalid(data)
      ensures balances[..] == ApplyAll(old(balances[..]), data[..k])
    {
      ghost var start := balances[..];
      var i := 0;
      while i < |data|
        invariant 0 <= i <= |data|
        invariant AllValid(data[..i])
        invariant balances[..] == ApplyAll(start, data[..i])
      {
        var t := data[i];
        if !ValidTransactionPattern(t) {
          FirstInvalidAt(data, i);
          return i;
        }
        ApplyAllStep(start, data, i);
        ApplyTransaction(t);
        i := i + 1;
      }
      assert data[..i] == data;
      FirstInvalidAt(data, i);
      return i;
    }
  }
}
