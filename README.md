# Billchain ledger validator, modelled in Dafny

A billchain ledger is a text file with one block per line:

    n|prev_hash|tx1:tx2:...|seconds.fraction|hash

The validator in `utils.rb` reads the lines in order and threads a cursor
from line to line. The cursor holds the previous line number, stored hash and
time stamp, and starts at `(-1, "0", "0")`. Each line must pass these checks,
in this order:

1. it has five `|`-separated fields;
2. its number is the previous number plus one;
3. it names the previous line's stored hash;
4. its time stamp is later than the previous one (`greater_time`);
5. its records are valid (`varify_transactions`);
6. it stores the hash of its own first four fields (`hash_str`).

The records move coins between six-digit accounts of one shared table of
1,000,000 balances, or mint coins from `SYSTEM`. A block is rejected when a
balance is negative once all of its records have been applied. The loop stops
at the first line that fails.

The model has five modules:

- `RubyText` (`ruby_text.dfy`): the Ruby string and integer behaviour the
  validator relies on.
  - `String#split` with a one-character separator, which drops trailing empty
    fields.
  - `String#to_i`: leading white space, a sign, an optional `0d` prefix,
    underscores between digits, and 0 when no number leads.
  - `Integer#to_s`, `s[0..-2]`, and `String#>`.
- `KeyedHash` (`keyed_hash.dfy`): `hash_str`.
  - Each weight `((x**3000)+(x**x)-(3**x))*(7**x)` is stated exactly as a ghost
    definition.
  - It is computed modulo 65536 by repeated squaring, and proved equal to the
    exact sum modulo 65536.
  - The value is rendered with `to_s(16)`.
- `Timestamp` (`timestamp.dfy`): `greater_time`.
  - A `nil` comparison, which raises in Ruby, is an explicit `Raises` outcome.
- `Transactions` (`transactions.dfy`): the record grammar, `apply_transaction`
  and `varify_transactions`.
  - The table is an `array<int>` held by the class `Accounts` and updated in
    place.
  - Each method is proved against a function on the table's contents.
- `Chain` (`chain.dfy`): `verify_line` and the line loop of `verify`, run over
  a sequence of lines.
  - A pure step function and a run function specify both.
  - Lemmas prove what an accepted prefix of the ledger guarantees: consecutive
    numbering, hash linkage, increasing time stamps, correct stored hashes,
    non-negative balances, and conservation of coins.

Some behaviours are kept exactly as the code has them:

- The first line is compared against the time `"0"`.
- Both parts of a time stamp are compared as strings.
- The hashed text renders the parsed line number (`"#{line_number}"`), so a
  field `007` is hashed as `7`.
- The last field always loses its last character. On a final line without a
  line feed, that character is part of the hash, so such a line is rejected.
- A time stamp in two parts compared with one in fewer parts can reach a
  `nil` comparison.
  - In `verify` that exception escapes; the model reports it as the verdict
    `Crashed`.
- The records of a block stay applied when the block is later rejected.
  - This happens for a negative balance, an invalid record after valid ones,
    or a wrong hash.
  - It does not matter to the loop, because the loop stops there.

## Model

| member | source | states |
|---|---|---|
| RubyText.Fields | utils.rb:102 | the fields between separators contain no separator and join back to the input |
| RubyText.Split | utils.rb:54-55 | Ruby's split: no field holds the separator, the last field is non-empty, and the result is the full field list with only empty trailing fields removed |
| RubyText.FieldsOfJoin | utils.rb:102 | splitting joined separator-free fields gives them back (the inverse of join) |
| RubyText.SplitOfJoin | utils.rb:102 | Ruby's split gives back joined fields whose last one is non-empty |
| RubyText.DropLast | utils.rb:109 | `s[0..-2]` is the string with its last character removed, and empty for the empty string |
| RubyText.SkipSpace | utils.rb:105 | `to_i` drops a prefix of the text and keeps the rest, which starts with a non-space |
| RubyText.SkipSpaceRemovesSpace | utils.rb:105 | every character `to_i` skips before reading is white space |
| RubyText.DigitRun | utils.rb:105 | the digits `to_i` reads are all digits, and there are some exactly when the text starts with a digit |
| RubyText.DigitRunPrefix | utils.rb:105 | a run of digits followed by text that cannot continue it is read as exactly those digits |
| RubyText.ToIOfLeadingDigits | utils.rb:105 | `to_i` of white space, an optional sign, digits and any text that cannot continue the number is the signed decimal value of those digits |
| RubyText.ToIOfNoNumber | utils.rb:105 | `to_i` is 0 when no digit follows the white space and the optional sign |
| RubyText.IntToStringDigits | utils.rb:123 | `"#{n}"` is n's decimal digits without a leading zero, after a minus sign for a negative n, and holds no `\|` |
| RubyText.NatToString | utils.rb:123 | `Integer#to_s` gives decimal digits without a leading zero whose value is the number |
| RubyText.ToIOfDigits | utils.rb:71-74 | `to_i` of a non-empty digit string is its decimal value |
| RubyText.ToIOfIntToString | utils.rb:105 | `to_i` reads back any integer that `"#{n}"` renders |
| RubyText.DecimalValueBound | utils.rb:71-74 | k digits are worth less than 10^k, so a six-digit account id is below 1,000,000 |
| RubyText.StrGreaterIsAbove | utils.rb:58-60 | string `>` holds exactly when the right side is a proper prefix of the left, or the left has the larger character where they first differ |
| RubyText.StrGreaterIrreflexive | utils.rb:58-60 | no string is greater than itself |
| RubyText.StrGreaterAsymmetric | utils.rb:58-60 | string `>` never holds in both directions |
| KeyedHash.PowMod | utils.rb:11 | repeated squaring gives b^e mod m exactly, in [0, m) |
| KeyedHash.PowModBase | utils.rb:11 | reducing the base mod m leaves b^e mod m unchanged |
| KeyedHash.WeightMod | utils.rb:11 | the computed weight of a code point is its exact weight `((x^3000)+(x^x)-(3^x))*(7^x)` mod 65536 |
| KeyedHash.HashValue | utils.rb:10-14 | the computed sum is the exact sum of all weights mod 65536, in [0, 65536) |
| KeyedHash.ToHex | utils.rb:15 | `to_s(16)`: lower-case hex digits, no leading zero, reading back as the number, at most four digits below 65536 |
| KeyedHash.HashStr | utils.rb:7-16 | `hash_str`: one to four lower-case hex digits, no leading zero, worth the exact weight sum mod 65536 |
| Timestamp.At | utils.rb:58-60 | `v[i]` is nil exactly past the end, and the element otherwise |
| Timestamp.GreaterOrRaise | utils.rb:58-60 | `a > b` raises exactly when a side is nil, and is the string comparison otherwise |
| Timestamp.GreaterTime | utils.rb:53-61 | false when neither stamp has two parts; once one has two parts: raises exactly when a side has no part, or the first parts agree and a side has only one part; otherwise compares the second parts when the first parts agree and the first parts when they differ |
| Timestamp.GreaterTimeIrreflexive | utils.rb:53-61 | a time stamp is never later than itself, and comparing it with itself never raises |
| Timestamp.GreaterTimeAsymmetric | utils.rb:53-61 | if t1 is later than t2 then t2 is not later than t1 |
| Transactions.PatternOfRecord | utils.rb:64-66 | every record built from a six-digit or SYSTEM source, a six-digit destination and a digit amount matches, and the fixed offsets read its parts back |
| Transactions.RecordOfPattern | utils.rb:64-66 | every matching string is such a record |
| Transactions.PatternCharacters | utils.rb:64-66 | a matching record consists of digits, the letters of SYSTEM, `>` and parentheses, so it holds no `\|`, `:` or line feed |
| Transactions.AccountId | utils.rb:70-74 | a six-digit field's `to_i` is its decimal value and a valid index into the table |
| Transactions.Amount | utils.rb:72 | the amount `transaction[14...-1].to_i` is the non-negative decimal value of the digits in the parentheses |
| Transactions.TotalUpdate | utils.rb:76-79 | changing one balance changes the total by the difference |
| Transactions.Transfer | utils.rb:73-79 | only the source and destination change; a transfer debits and credits the amount and keeps the total, minting credits the destination and adds the amount to the total, a self-transfer changes nothing |
| Transactions.Applied | utils.rb:69-80 | `apply_transaction` on a table value: SYSTEM credits only the destination, any other record moves the amount from source to destination, all else unchanged, total grows by the minted amount |
| Transactions.ApplyAllStep | utils.rb:89-93 | one more valid record extends the applied prefix by exactly that record |
| Transactions.ApplyAllUntouched | utils.rb:89-93 | a batch leaves every account that none of its records names unchanged |
| Transactions.ApplyAllTotal | utils.rb:89-93 | applying a batch changes the total by exactly what its SYSTEM records mint |
| Transactions.FirstInvalid | utils.rb:89-90 | the records before the returned position all match, and the one at it does not |
| Transactions.FirstInvalidAt | utils.rb:89-90 | a matching prefix followed by a failing record or the end fixes the first invalid position |
| Transactions.TransactionsOutcome | utils.rb:85-98 | fails on no records; fails at the first bad record with the earlier ones applied; otherwise fails exactly when a balance is negative after the whole batch (a dip in the middle passes); success keeps all balances non-negative and grows the total by the minted amount |
| Transactions.Accounts.constructor | utils.rb:41 | the table starts with 1,000,000 zero balances (nil reads as 0) |
| Transactions.Accounts.ApplyTransaction | utils.rb:69-80 | the array after the call is `Applied` of the array before |
| Transactions.Accounts.Move | utils.rb:73-79 | the two in-place writes yield `Transfer` of the array before |
| Transactions.Accounts.NoNegativeBalance | utils.rb:95-97 | the scan answers true exactly when no balance is negative |
| Transactions.Accounts.ApplyRecords | utils.rb:89-93 | the loop stops at the first record that fails the pattern, with exactly the records before it applied |
| Transactions.Accounts.VerifyTransactions | utils.rb:85-98 | the answer and the new array are exactly `TransactionsOutcome` of the array before |
| Chain.LineStep | utils.rb:101-129 | a line is accepted exactly when it follows the cursor, its records pass and it stores its own hash; then the cursor moves to its number, stored hash and time, no balance is negative, and the total grows by what it mints; it raises exactly on a nil time comparison; a wrong field count and a wrong number are reported as such; a line that passes the number, hash and time checks leaves the table `varify_transactions` leaves, even when it is then rejected; any other line leaves the table unchanged |
| Chain.LineStepError | utils.rb:114-125 | a rejected line names the first check it failed: the previous hash, the time stamp, the records or its own hash, each exactly when the checks before it passed |
| Chain.CanonicalFields | utils.rb:123 | the hashed text splits back into the rendered line number, previous hash, records and time, and its first field reads back as the line number |
| Chain.FiveFields | utils.rb:102-109 | five separator-free fields joined by `\|` read back through the field accessors |
| Chain.BlockFields | utils.rb:102-109 | a written block reads back as its number, previous hash, records, time and hash |
| Chain.BlockAccepted | utils.rb:101-128 | every block written after a cursor, with a later time and passing records, is accepted and moves the cursor to that block |
| Chain.VerifyLine | utils.rb:101-129 | the result and the new array are exactly `LineStep` of the array before |
| Chain.Settle | utils.rb:120-128 | on a line that passed the number, hash and time checks, the records are applied; the line is rejected for its records exactly when `varify_transactions` fails, for its hash exactly when the records pass and the stored hash is wrong, and otherwise accepted with its own number, hash and time as the next cursor |
| Chain.Zeros | utils.rb:41 | the initial table has 1,000,000 entries, every one 0 (an unset entry reads as 0) |
| Chain.Run | utils.rb:37-50 | the loop from the first line with cursor (-1, "0", "0") and an all-zero table stops inside the file or completes; a completed run leaves no negative balance (where a stopped run stops: `StoppingLine`) |
| Chain.RunFrom | utils.rb:42-49 | the loop ends at a line index no earlier than where it started and inside the file unless it completed (that the line it stops at fails: `RunStopsAt`) |
| Chain.RunChained | utils.rb:42-49 | every line before the stopping point follows the cursor left by the line before it |
| Chain.ChainedNumber | utils.rb:111 | chained lines are numbered consecutively from the cursor's number plus one |
| Chain.ChainedLink | utils.rb:114-117 | each chained line after the first names the stored hash, and has a later time stamp, of the line before it |
| Chain.RunSealed | utils.rb:123 | every line before the stopping point stores the hash of its own first four fields |
| Chain.AcceptedLines | utils.rb:37-49 | after lines 0..k-1 are accepted, they are numbered 0..k-1, line 0 names hash "0", each later line names its predecessor's stored hash and is later than it, and each stores its own hash |
| Chain.RunStopsAt | utils.rb:42-49 | from any start, a loop that does not complete stops inside the file at a line which, read after the accepted lines before it with the cursor the last of them leaves, yields the stopping table and is rejected with exactly the recorded error, or raises when the verdict is a raise |
| Chain.StoppingLine | utils.rb:37-50 | the same for the whole file from the initial cursor and table: the stopping line fails with the recorded error (or raises) and leaves the final table |
| Chain.RunPrefix | utils.rb:42-49 | the run cut at any point it reached completes, with no negative balance |
| Chain.BalancesNonNegative | utils.rb:95-97 | after any number of accepted lines, no balance is negative |
| Chain.RunTotal | utils.rb:42-49 | over a fully accepted ledger, the total of all balances grows by exactly what the SYSTEM records mint |
| Chain.Verify | utils.rb:37-50 | the loop over the lines ends with the verdict of `Run`; every line before the stopping point is numbered by its position, linked to its predecessor's hash (line 0 to "0"), later than its predecessor, and stores its own hash; a stopping point lies inside the file, and the line there, read with the table and cursor the lines before it leave, is rejected with exactly the recorded error, or raises when the verdict is a raise |

## Left out

- `verify_user_input`, the command-line entry point and the profiling harness
  are not part of this model. They are file-system checks and tooling.
- `File.open(...).each` is replaced by a sequence of lines. Each line carries
  its terminator, as `each` delivers it.
- `puts` diagnostics and `show_error_message` are left out. The verdict names
  the failing line and the failed check instead.
- Ruby's regular-expression engine is replaced by explicit character checks.
  - Ruby's `^` and `$` match at line boundaries.
  - A record in a line never contains a line feed, so the two agree on every
    record the validator sees.
- Code points are Dafny characters, which are Unicode scalar values. The error
  `unpack('U*')` raises on malformed UTF-8 is not modelled.
- The exact bignum `x**3000` is stated only as a ghost definition. It is never
  evaluated.
- KeyedHash.HashStr: does not prove the documented example `hash_str('bill') ==
  'f896'`. The exponentiation by 3000 is beyond what the verifier evaluates
  within its resource limit.
- Transactions.Accounts.ApplyTransaction: requires the record to match the
  pattern. Its only caller checks the pattern first, and other strings are not
  modelled.
- Ruby's account array grows on demand and starts with `nil` entries. The
  model uses 1,000,000 zero entries instead.
  - `nil` reads as 0 at every place it is read.
  - A six-digit id never exceeds that size.
  - The trailing `nil`s are skipped by the final scan.
- Chain.RunTotal: conservation is stated for ledgers whose every line is
  accepted.
  - A rejected block can leave records applied.
  - That block's minting is not accounted for.
