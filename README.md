# my-rust-incubator in Dafny

A Dafny model of the exercises in the Rust incubator repository, one module
per source file:

- `DlList` (`dl_list.dfy`) is the lock-free doubly linked list of
  `1_concepts/src/dl_list.rs`, taken sequentially. The model is a class over
  `Node` objects with `next` and `previous` references and a stored `len`.
  A ghost `nodes` sequence is the chain from head to tail, and a ghost
  `contents` sequence holds the values. The list invariant `Valid()` states
  the spine: the nodes are distinct and hold `contents` in order, each
  node's `next` is the following node and each node's `previous` the one
  before, the first node has no `previous` and the last no `next`, `head`
  and `tail` are the first and last nodes (null on an empty list), and
  `len == |contents|`. The lemmas `EndsInvariant` and `BackLinks` derive
  from it that the ends are null exactly when the list is empty, that
  `head == tail` exactly when `len <= 1`, and that every `next` link is
  matched by a `previous` link. Every operation is stated against
  `contents`.
- `VendingMachines` (`vending_machine.dfy`) models the vending machine of
  `2_idioms/src/main.rs`:
  - `Price` arithmetic on `u64`;
  - the `Coin` ↔ `Price` conversions and `make_array`;
  - the greedy change selection;
  - `buy`, which takes the change out of the machine's coins and removes the
    product by `swap_remove`. `Buy` splits the coins as the source does,
    and `BuyCorrected` as the source evidently intends (see "## Findings").
- `FormatSpecs` (`format_spec.dfy`) models the `std::fmt` format-spec
  recogniser of `3_ecosystem/3_4_regex_parsing/src/main.rs`:
  - `Sign::from_str` and `Precision::from_str`, the latter both as written and
    as evidently intended (see "## Findings");
  - the inline PEG grammar, written out as a recogniser that builds a pest
    (the Rust PEG parser) style parse tree;
  - the loops of `parse_format_spec` and `parse_dot_precision` that read sign,
    width and precision off that tree.
- `UserCollections` (`collections.dfy`) models the user repository of
  `3_ecosystem/3_5_collections/src/main.rs`. Users are keyed by id and ids are
  keyed by name. It has lookups by id, by a list of ids (binary search on the
  argument list) and by name substring. `UsersByIds` searches the argument
  list as the source does, and `UsersByIdsCorrected` searches the sorted copy
  the source builds and leaves unused (see "## Findings").
- `MemReplace` (`mem_replace.dfy`) models the triple rotation and the solver
  of `2_idioms/2_2_mem_replace/src/main.rs`. The solver filters out the
  triples that are rotations of the expected one.
- `Dispatch` (`dispatch.dfy`) and `SizedRepository` (`sized.dfy`) model the
  key–value user repositories of `1_concepts/1_6_dispatch/src/main.rs` and
  `1_concepts/1_7_sized/src/repository.rs`, and the `CreateUser` command
  handler of `1_concepts/1_7_sized/src/main.rs`.
- `TypeSafety` (`type_safety.dfy`) models the post lifecycle of
  `2_idioms/2_1_type_safety/src/main.rs` (New → Unmoderated → Published or
  Deleted, Published → Deleted) as a state machine over post values.
- `DateTime` (`date_time.dfy`) models the age and adulthood of a user at the
  fixed date 2019-06-26, from `3_ecosystem/3_3_date_time/src/main.rs`. It
  has the proleptic Gregorian calendar and `years_since` written out.
- `EmailStrings` (`email_string.dfy`) models the e-mail string validator and
  its conversions, from `1_concepts/1_5_convert_cast_deref/src/email_string.rs`.
- `RcCell` (`rc_cell.dfy`) models the stack of `1_concepts/1_3_rc_cell/src/main.rs`
  whose handles share one vector.
- `MutMe` (`mut_me.dfy`) models the `make_a_mut` implementations of
  `1_concepts/1_2_box_pin/src/mut_me_trait.rs`.
- `GenericInTypeOut` (`generic_in_type_out.dfy`) models the `Error` builder
  and `Server::bind` of `2_idioms/2_4_generic_in_type_out/src/main.rs`.
- `Wrappers` (`wrappers.dfy`) holds the `Option`, `Result` and `Unit` types
  the modules share.
- `Subsequences` (`subsequence.dfy`) holds the order-preserving subsequence
  predicate that the change selection of `VendingMachines` and the filter of
  `MemReplace` are stated with.

State the source changes in place is modelled by classes with `modifies`
clauses; pure code is modelled by functions and lemmas. When code loops, so
does its model: `Sum`, `make_array`, `get_change_values`, `contains`,
`users_by_ids`, `ids_by_name_substring`, the rotation loops of `resolve`, and
`parse_format_spec`.

Integer widths are explicit subset types:
- `U64` for prices and user ids;
- `Usize` for the parsed width and precision and for `TestStruct.field`;
- `U16` for the HTTP status and the port;
- `I32`/`U32` for the date constructor.

## Model

| member | source | states |
|---|---|---|
| DlList.Node.constructor | 1_concepts/src/dl_list.rs:14-20 | a new node holds the value and has no neighbours |
| DlList.Node.SetValue | 1_concepts/src/dl_list.rs:22-26 | the value is replaced and both links are kept |
| DlList.Node.CheckValue | 1_concepts/src/dl_list.rs:34-40 | the result is what the predicate says of the node's value |
| DlList.Node.GetValue | 1_concepts/src/dl_list.rs:122-130 | returns the node's value |
| DlList.Node.AddAfter | 1_concepts/src/dl_list.rs:50-70 | the new node is linked between this node and its old successor in both directions, and the old successor's back link points to it; values are unchanged |
| DlList.Node.AddBefore | 1_concepts/src/dl_list.rs:72-95 | the mirror image of AddAfter: the new node is linked between the old predecessor and this node |
| DlList.Node.Remove | 1_concepts/src/dl_list.rs:97-119 | returns the node's value and joins its neighbours to each other in both directions |
| DlList.DoubleLinkList.constructor | 1_concepts/src/dl_list.rs:139-145 | a new list is valid and empty: null head and tail, len 0 |
| DlList.DoubleLinkList.Len | 1_concepts/src/dl_list.rs:147-149 | the stored counter equals the number of elements |
| DlList.DoubleLinkList.IsEmpty | 1_concepts/src/dl_list.rs:151-153 | true exactly when the contents are empty, that is when len() is 0 |
| DlList.DoubleLinkList.HeadCheck | 1_concepts/src/dl_list.rs:169-175 | false on an empty list, otherwise what the predicate says of the first element |
| DlList.DoubleLinkList.TailCheck | 1_concepts/src/dl_list.rs:183-189 | false on an empty list, otherwise what the predicate says of the last element |
| DlList.DoubleLinkList.HeadInspect | 1_concepts/src/dl_list.rs:163-167 | the callback sees the first element, and is not called on an empty list |
| DlList.DoubleLinkList.TailInspect | 1_concepts/src/dl_list.rs:177-181 | the callback sees the last element, and is not called on an empty list |
| DlList.DoubleLinkList.GetHead | 1_concepts/src/dl_list.rs:337-339 | a copy of the first element, None on an empty list |
| DlList.DoubleLinkList.GetTail | 1_concepts/src/dl_list.rs:341-343 | a copy of the last element, None on an empty list |
| DlList.DoubleLinkList.EndsInvariant | 1_concepts/src/dl_list.rs:132-145 | head and tail are null exactly when len is 0; head == tail exactly when len <= 1; non-null and equal exactly when len is 1 |
| DlList.DoubleLinkList.BackLinks | 1_concepts/src/dl_list.rs:50-119 | for any two nodes of the list, a.next == b exactly when b.previous == a |
| DlList.DoubleLinkList.PushTail | 1_concepts/src/dl_list.rs:296-333 | contents become old + [v] and len grows by 1; a push onto an empty list makes the new node both head and tail; the list stays valid |
| DlList.DoubleLinkList.LinkAfterTail | 1_concepts/src/dl_list.rs:325-330 | the non-empty case of push_tail: the new node is linked after the old tail and becomes the tail, the spine gains it at the end, and the list stays valid |
| DlList.DoubleLinkList.PushHead | 1_concepts/src/dl_list.rs:256-294 | contents become [v] + old and len grows by 1; a push onto an empty list makes the new node both head and tail; the list stays valid |
| DlList.DoubleLinkList.LinkBeforeHead | 1_concepts/src/dl_list.rs:285-291 | the non-empty case of push_head: the new node is linked before the old head and becomes the head, the spine gains it at the front, and the list stays valid |
| DlList.DoubleLinkList.PopHead | 1_concepts/src/dl_list.rs:191-223 | None and no change on an empty list; otherwise the first element, with contents old[1..] and len - 1; popping the last element nulls head and tail |
| DlList.DoubleLinkList.PopTail | 1_concepts/src/dl_list.rs:225-254 | None and no change on an empty list; otherwise the last element, with contents old[..\|old\|-1] and len - 1; popping the last element nulls head and tail |
| DlList.DoubleLinkList.Drop | 1_concepts/src/dl_list.rs:361-367 | popping until empty leaves a valid empty list with null ends |
| DlList.Contains | 1_concepts/src/dl_list.rs:346-359 | the walk from head to tail finds the item exactly when it is among the contents |
| DlList.PushRange | 1_concepts/src/main.rs:13-18 | the first loop of the single-threaded test leaves a valid list holding 0..n-1 in order |
| DlList.FindRange | 1_concepts/src/main.rs:20-22 | on a valid list holding 0..n-1, the second loop's lookups all succeed: each of 0..n-1 is contained |
| DlList.SingleThreadScenario | 1_concepts/src/main.rs:11-30 | the single-threaded test: every lookup succeeds, len() is 10, and after push_head(10) the head is 10 and len() is 11 |
| DlList.PopOnlyScenario | 1_concepts/src/dl_list.rs:191-254 | popping the only element from the tail, then from the head, gives it back, and a pop on the empty list gives None; the ends are null each time |
| VendingMachines.Price.Add | 2_idioms/src/main.rs:11-17 | the amount of the sum is the sum of the amounts, when it fits in u64 |
| VendingMachines.Price.Sub | 2_idioms/src/main.rs:25-31 | the amount of the difference is the difference, which u64 subtraction needs to be non-negative |
| VendingMachines.Price.Less | 2_idioms/src/main.rs:3-4 | the derived order compares amounts; PriceOrder states that it is a strict total order |
| VendingMachines.PriceOrder | 2_idioms/src/main.rs:3-4 | `<` on prices is irreflexive, transitive, total and asymmetric |
| VendingMachines.AddSubInverse | 2_idioms/src/main.rs:11-31 | subtracting what was added gives the price back, and adding back what was subtracted does too |
| VendingMachines.TotalAppend | 2_idioms/src/main.rs:39-49 | the total of a concatenation is the sum of the totals |
| VendingMachines.SumPrices | 2_idioms/src/main.rs:39-49 | the accumulating loop of Sum yields the total of the amounts |
| VendingMachines.Coin.Value | 2_idioms/src/main.rs:92-101 | every coin is worth one of 1, 2, 5, 10, 20 and 50 |
| VendingMachines.CoinTryFrom | 2_idioms/src/main.rs:61-75 | succeeds exactly for the amounts 1, 2, 5, 10, 20 and 50, and the coin's value is the price converted |
| VendingMachines.CoinValueRoundTrip | 2_idioms/src/main.rs:61-101 | converting a coin's value back gives the coin |
| VendingMachines.Values | 2_idioms/src/main.rs:92-101 | the values of a coin list, element by element |
| VendingMachines.MakeArray | 2_idioms/src/main.rs:78-90 | fails (the source panics) exactly when a pair with a positive count names no coin; otherwise each pair's coin repeated its count times, in order |
| VendingMachines.MakeArrayStep | 2_idioms/src/main.rs:81-87 | one more pair naming a coin, or with count 0, appends its coins to what the earlier pairs gave |
| VendingMachines.TotalRepeat | 2_idioms/src/main.rs:81-87 | the `count` coins one pair pushes are worth `count` times the coin's value |
| VendingMachines.ExpandTotal | 2_idioms/src/main.rs:78-90 | the coins make_array builds are worth the sum of count times value over the pairs |
| VendingMachines.ExpandFirst | 2_idioms/src/main.rs:78-90 | when the first pair has a positive count, the first coin built is its coin |
| VendingMachines.AsCoinPairsAt | 2_idioms/src/main.rs:81-87 | each pair's price is converted to a coin on its own |
| VendingMachines.TestCoinPairs | 2_idioms/src/main.rs:193-201 | every price among the pairs of test_vending_machine is a coin, so make_array does not panic there |
| VendingMachines.TestPairsTotal | 2_idioms/src/main.rs:193-201 | the pairs of test_vending_machine are worth 360, as the comment in the test says |
| VendingMachines.TestCoins | 2_idioms/src/main.rs:193-201 | make_array on the pairs of test_vending_machine succeeds with coins that start with a Fifty and add up to 360 |
| VendingMachines.GreedyChange | 2_idioms/src/main.rs:133-151 | the change get_change_values picks; GreedyChangeSound states that it adds up to the amount asked, is picked in the coins' order, and that each value picked fits in what was still owed |
| VendingMachines.GreedyChangeSound | 2_idioms/src/main.rs:133-151 | change found adds up to the amount asked, each picked value is at most the change still due when it is picked, and the values are a subsequence of the coins' values in order |
| VendingMachines.NoCoinsNoChange | 2_idioms/src/main.rs:133-151 | a machine with no coins finds no change, even for 0, because the loop never runs |
| VendingMachines.PartitionAsWrittenNothing | 2_idioms/src/main.rs:174-176 | with no change values left, the partition as written keeps every coin |
| VendingMachines.PartitionAsWrittenAll | 2_idioms/src/main.rs:174-176 | asked for the values of all the coins, the partition as written hands out all of them |
| VendingMachines.GreedyTakesAll | 2_idioms/src/main.rs:133-151 | change equal to the total of the coins takes every coin |
| VendingMachines.PartitionAsWritten | 2_idioms/src/main.rs:174-176 | the partition as written; PartitionsInterleave, PartitionAsWrittenWithinChange and AsWrittenPartition state that it splits the coins in order, loses none, and hands out a subsequence of the change values worth no more than the change |
| VendingMachines.PartitionsInterleave | 2_idioms/src/main.rs:172-176 | both the intended partition and the partition as written split the coins into coins given and coins kept, each in its old order, with the coins as a multiset unchanged |
| VendingMachines.PartitionChangeInterleaves | 2_idioms/src/main.rs:172-176 | the intended partition splits the coins into coins given and coins kept, each in its old order |
| VendingMachines.PartitionAsWrittenInterleaves | 2_idioms/src/main.rs:172-176 | the partition as written also splits the coins into two parts in their old order |
| VendingMachines.PartitionAsWrittenWithinChange | 2_idioms/src/main.rs:174-176 | the coins the partition as written hands out have values forming a subsequence of the change values, so it never hands out more than was selected |
| VendingMachines.SubsequenceTotal | 2_idioms/src/main.rs:174-176 | prices forming a subsequence of other prices add up to no more than they do |
| VendingMachines.InterleavingMultiset | 2_idioms/src/main.rs:172-176 | splitting into two interleaved parts loses and adds no coin |
| VendingMachines.AsWrittenPartition | 2_idioms/src/main.rs:169-176 | for the greedy change values, the partition as written keeps the coins' order and multiset and hands out at most the change owed |
| VendingMachines.GreedyPartition | 2_idioms/src/main.rs:169-176 | the coins handed out for the greedy change are worth exactly the change asked, and they and the kept coins interleave into the old coins |
| VendingMachines.PartitionChangeGivesChange | 2_idioms/src/main.rs:172-176 | when the change values are a subsequence of the coins' values, the coins given have exactly those values |
| VendingMachines.PartitionChangeFullChange | 2_idioms/src/main.rs:172-176 | on coins [Fifty, Fifty, Twenty] and change values [50, 20], the intended partition hands out [Fifty, Twenty] and keeps [Fifty] |
| VendingMachines.PartitionAsWrittenShortChange | 2_idioms/src/main.rs:172-176 | for coins [Fifty, Fifty, Twenty] and change 70 the greedy pick is [50, 20], but the partition as written gives only [Fifty] |
| VendingMachines.Position | 2_idioms/src/main.rs:157-159 | the index of the first product with that name, or None when none has it |
| VendingMachines.SwapRemove | 2_idioms/src/main.rs:178 | one element shorter; the last element takes the removed one's place; the others stay where they were |
| VendingMachines.SwapRemoveMultiset | 2_idioms/src/main.rs:178 | swap_remove loses exactly the removed element |
| VendingMachines.VendingMachine.constructor | 2_idioms/src/main.rs:126-131 | the machine holds the coins and products given |
| VendingMachines.VendingMachine.GetChangeValues | 2_idioms/src/main.rs:133-151 | the loop computes the greedy change, the specification lemmas of which are above |
| VendingMachines.VendingMachine.Buy | 2_idioms/src/main.rs:153-182 | Err with nothing changed when the product is absent, the payment is below the price or no change can be made; otherwise the product, products after swap_remove, and the coins given and kept exactly as the source's partition splits them: an interleaving of the old coins, no coin lost or added, and worth at most payment - price |
| VendingMachines.VendingMachine.BuyCorrected | 2_idioms/src/main.rs:153-182 | the same failures; otherwise the product, products after swap_remove, and change coins with exactly the greedy change values, worth exactly payment - price, interleaving with the coins kept into the old coins |
| VendingMachines.TestShelf | 2_idioms/src/main.rs:202-206 | in the test, Fanta is found first, and swap_remove leaves [Snickers, Pepsi], then [Snickers] |
| VendingMachines.TestFirstChange | 2_idioms/src/main.rs:194-221 | with the test coins, the change of 50 is the first Fifty alone under either partition, and 310 stays in the machine |
| VendingMachines.TestSellRest | 2_idioms/src/main.rs:223-245 | after the Fanta sale, Pepsi for 610 takes every remaining coin and Snickers for 431 then fails |
| VendingMachines.VendingScenario | 2_idioms/src/main.rs:191-245 | test_vending_machine: Fanta for 300 hands out exactly [Fifty], Pepsi for 610 succeeds and hands out coins worth 310, and Snickers for 431 fails |
| VendingMachines.ShortChangeScenario | 2_idioms/src/main.rs:153-182 | with coins [Fifty, Fifty, Twenty], buying for 100 a product of price 30 hands out only [Fifty] and keeps [Fifty, Twenty] as written, and hands out [Fifty, Twenty] and keeps [Fifty] as intended |
| FormatSpecs.SignFromStr | 3_ecosystem/3_4_regex_parsing/src/main.rs:106-116 | Ok exactly for "-" and "+", and the sign read is the text given |
| FormatSpecs.ParseUsizeDecimal | 3_ecosystem/3_4_regex_parsing/src/main.rs:88 | usize parsing reads a decimal back, also with a "+" or a leading "0" |
| FormatSpecs.ParseUsizeRejects | 3_ecosystem/3_4_regex_parsing/src/main.rs:88 | usize parsing refuses "", "+" and anything starting with "-" |
| FormatSpecs.ParseUsize | 3_ecosystem/3_4_regex_parsing/src/main.rs:88 | a number that parses starts with `+` or a digit; ParseUsizeDecimal and ParseUsizeRejects state the round trip and the refusals |
| FormatSpecs.TrimZeros | 3_ecosystem/3_4_regex_parsing/src/main.rs:135-138 | trim_start_matches('0') leaves no leading '0' and never lengthens the text |
| FormatSpecs.TrimZerosSuffix | 3_ecosystem/3_4_regex_parsing/src/main.rs:135-138 | what trim_start_matches('0') keeps is a suffix of the text, and everything it drops is '0' |
| FormatSpecs.PrecisionFromStr | 3_ecosystem/3_4_regex_parsing/src/main.rs:125-140 | Asterisk exactly for "*"; an Argument only from text ending in '$'; an Integer only from text that does not |
| FormatSpecs.PrecisionRoundTrip | 3_ecosystem/3_4_regex_parsing/src/main.rs:125-140 | every precision with a positive count is parsed back from its text, also after leading zeros |
| FormatSpecs.IntegerWithZeros | 3_ecosystem/3_4_regex_parsing/src/main.rs:138 | zeros then a positive decimal give Integer of that number |
| FormatSpecs.ArgumentWithZeros | 3_ecosystem/3_4_regex_parsing/src/main.rs:134-136 | zeros, a positive decimal and '$' give Argument of that number |
| FormatSpecs.ArgumentText | 3_ecosystem/3_4_regex_parsing/src/main.rs:134-136 | text ending in '$' whose zero-stripped rest parses as n gives Argument(n) |
| FormatSpecs.PrecisionAllZerosIsErr | 3_ecosystem/3_4_regex_parsing/src/main.rs:134-138 | "0", "00"… and "0$", "00$"… are refused, because the stripped text is empty |
| FormatSpecs.PrecisionAsWrittenDigits | 3_ecosystem/3_4_regex_parsing/src/main.rs:134-138 | on a digit string in range Precision::from_str gives its value as Integer, or as Argument before `$`, except that value 0 is an Err |
| FormatSpecs.TrimZerosDigits | 3_ecosystem/3_4_regex_parsing/src/main.rs:135-138 | trimming the leading zeros of a digit string keeps its value, and leaves nothing exactly when the value is 0 |
| FormatSpecs.ZeroValueAllZeros | 3_ecosystem/3_4_regex_parsing/src/main.rs:135-138 | a digit string of value 0 is all zeros |
| FormatSpecs.PrecisionFromStrCorrected | 3_ecosystem/3_4_regex_parsing/src/main.rs:125-140 | Precision::from_str without the trimming: Asterisk exactly for "*", Argument only before `$`, Integer only otherwise |
| FormatSpecs.PrecisionCorrectedDigits | 3_ecosystem/3_4_regex_parsing/src/main.rs:134-138 | the corrected parse gives every digit string in range its value, 0 included |
| FormatSpecs.ZerosDigitsValue | 3_ecosystem/3_4_regex_parsing/src/main.rs:135-138 | leading zeros do not change the value of a digit string |
| FormatSpecs.PrecisionRoundTripCorrected | 3_ecosystem/3_4_regex_parsing/src/main.rs:125-140 | the corrected parse reads every precision back from its text, 0 included, also after leading zeros |
| FormatSpecs.MatchIdentifier | 3_ecosystem/3_4_regex_parsing/src/main.rs:13 | an identifier match is a non-empty prefix of the input |
| FormatSpecs.MatchInteger | 3_ecosystem/3_4_regex_parsing/src/main.rs:14 | an integer match is a non-empty prefix of the input |
| FormatSpecs.MatchArgument | 3_ecosystem/3_4_regex_parsing/src/main.rs:15 | an argument (identifier or integer) match is a non-empty prefix of the input |
| FormatSpecs.MatchParameter | 3_ecosystem/3_4_regex_parsing/src/main.rs:16 | a parameter (argument then `$`) match is a non-empty prefix of the input |
| FormatSpecs.MatchSign | 3_ecosystem/3_4_regex_parsing/src/main.rs:22 | a sign match is a non-empty prefix of the input |
| FormatSpecs.MatchPrecision | 3_ecosystem/3_4_regex_parsing/src/main.rs:24 | a precision (count or `*`) match is a non-empty prefix of the input |
| FormatSpecs.MatchFillAlign | 3_ecosystem/3_4_regex_parsing/src/main.rs:19-21 | a fill_align match is a non-empty prefix of the input |
| FormatSpecs.MatchCount | 3_ecosystem/3_4_regex_parsing/src/main.rs:13-17 | a count (parameter or integer) match is a non-empty prefix of the input |
| FormatSpecs.MatchDotPrecision | 3_ecosystem/3_4_regex_parsing/src/main.rs:24-25 | a dot_precision match is "." and a non-empty precision |
| FormatSpecs.MatchType | 3_ecosystem/3_4_regex_parsing/src/main.rs:26 | a type match is a non-empty prefix of the input |
| FormatSpecs.FormatSpecParse | 3_ecosystem/3_4_regex_parsing/src/main.rs:28 | the format_spec rule matches any input, possibly on the empty prefix, and yields a format_spec pair |
| FormatSpecs.LastOf | 3_ecosystem/3_4_regex_parsing/src/main.rs:85-92 | the last pair of a rule, or None when no pair has it |
| FormatSpecs.FirstOf | 3_ecosystem/3_4_regex_parsing/src/main.rs:71-77 | the first pair of a rule, or None when no pair has it |
| FormatSpecs.ParseDotPrecision | 3_ecosystem/3_4_regex_parsing/src/main.rs:70-78 | the loop returns the parse of the first precision child, or None |
| FormatSpecs.ParseFormatSpec | 3_ecosystem/3_4_regex_parsing/src/main.rs:80-95 | the loop leaves the parse of the last sign, width and dot_precision children |
| FormatSpecs.ParseParser | 3_ecosystem/3_4_regex_parsing/src/main.rs:63-98 | parse_parser returns the fields read off the parse tree of the input |
| FormatSpecs.SignOfPairs | 3_ecosystem/3_4_regex_parsing/src/main.rs:85-87 | the sign read off format_spec's children is the parse of the text the sign rule matched, None when it did not match |
| FormatSpecs.WidthOfPairs | 3_ecosystem/3_4_regex_parsing/src/main.rs:85-88 | the width read off format_spec's children is the usize parse of the text the width rule matched, None when it did not match |
| FormatSpecs.PrecisionOfPairs | 3_ecosystem/3_4_regex_parsing/src/main.rs:85-89 | the precision read off format_spec's children is the parse of the text after the dot of dot_precision, None when it did not match |
| FormatSpecs.FillAlignStage | 3_ecosystem/3_4_regex_parsing/src/main.rs:19-21 | on a rendered spec fill_align matches exactly the fill and align text |
| FormatSpecs.SignStage | 3_ecosystem/3_4_regex_parsing/src/main.rs:22 | sign matches exactly the one sign character, when there is one |
| FormatSpecs.WidthStage | 3_ecosystem/3_4_regex_parsing/src/main.rs:23 | width matches exactly the decimal text of the width, when there is one |
| FormatSpecs.PrecisionStage | 3_ecosystem/3_4_regex_parsing/src/main.rs:24-25 | dot_precision matches exactly the dot and the precision text, when there is one |
| FormatSpecs.RestsOfRender | 3_ecosystem/3_4_regex_parsing/src/main.rs:28 | on a rendered spec each optional part of format_spec consumes exactly its own text |
| FormatSpecs.SignOfRender | 3_ecosystem/3_4_regex_parsing/src/main.rs:87 | the sign of a well-formed spec is read back from its text |
| FormatSpecs.WidthOfRender | 3_ecosystem/3_4_regex_parsing/src/main.rs:88 | the width of a well-formed spec is read back from its text |
| FormatSpecs.PrecisionOfRender | 3_ecosystem/3_4_regex_parsing/src/main.rs:89 | the precision of a well-formed spec is read back from its text |
| FormatSpecs.ParseRender | 3_ecosystem/3_4_regex_parsing/src/main.rs:13-28 | every well-formed spec, rendered as text, is read back as its own sign, width and precision |
| FormatSpecs.ZeroPrecisionOfRender | 3_ecosystem/3_4_regex_parsing/src/main.rs:70-78 | a spec whose precision number is 0 comes out of the parse with no precision |
| FormatSpecs.PrecisionOfRenderCorrected | 3_ecosystem/3_4_regex_parsing/src/main.rs:24-25 | the corrected parse of dot_precision's text gives back the precision of every renderable spec, 0 included |
| FormatSpecs.DotZeroHasNoPrecision | 3_ecosystem/3_4_regex_parsing/src/main.rs:89 | ".0" gives no precision; the corrected parse of "0" is Integer(0) |
| FormatSpecs.DotZeroArgumentHasNoPrecision | 3_ecosystem/3_4_regex_parsing/src/main.rs:89 | ".0$" gives no precision; the corrected parse of "0$" is Argument(0) |
| FormatSpecs.EmptyInput | 3_ecosystem/3_4_regex_parsing/src/main.rs:149-183 | "" gives (None, None, None) |
| FormatSpecs.AlignWidthAsterisk | 3_ecosystem/3_4_regex_parsing/src/main.rs:150-184 | ">8.*" gives no sign, width 8 and precision Asterisk |
| FormatSpecs.AlignSignWidthAsterisk | 3_ecosystem/3_4_regex_parsing/src/main.rs:151-185 | ">+8.*" gives sign Plus, width 8 and precision Asterisk |
| FormatSpecs.SignArgumentType | 3_ecosystem/3_4_regex_parsing/src/main.rs:152-186 | "-.1$x" gives sign Minus, no width and precision Argument(1) |
| FormatSpecs.FillFlagsWidthPrecisionType | 3_ecosystem/3_4_regex_parsing/src/main.rs:153-187 | "a^#043.8?" gives no sign, width 43 (the '0' flag comes first) and precision Integer(8) |
| UserCollections.ContainsOccurs | 3_ecosystem/3_5_collections/src/main.rs:57-62 | str::contains holds exactly when the pattern occurs at some index |
| UserCollections.Contains | 3_ecosystem/3_5_collections/src/main.rs:59 | str::contains; ContainsOccurs states that it holds exactly when `sub` occurs at some position |
| UserCollections.ContainsTooShort | 3_ecosystem/3_5_collections/src/main.rs:59 | no string shorter than `sub` contains it |
| UserCollections.BinarySearchFrom | 3_ecosystem/3_5_collections/src/main.rs:52 | an Ok index of the search holds the key |
| UserCollections.BinarySearchFromComplete | 3_ecosystem/3_5_collections/src/main.rs:52 | on a sorted slice the search over a range that holds the key succeeds |
| UserCollections.BinarySearchFromSorted | 3_ecosystem/3_5_collections/src/main.rs:52 | on a sorted slice the search over a range succeeds exactly when the key is in that range |
| UserCollections.SearchExamples | 3_ecosystem/3_5_collections/src/main.rs:102-106 | the search over [1, 3, 5] finds 1 and 3 and not 2 |
| UserCollections.BinarySearchFinds | 3_ecosystem/3_5_collections/src/main.rs:52 | Ok only for a key in the list; on a sorted list Ok exactly for a key in the list |
| UserCollections.BinarySearch | 3_ecosystem/3_5_collections/src/main.rs:52 | slice::binary_search over the whole slice; BinarySearchFinds states when it succeeds |
| UserCollections.EarlyReturnSearch | 3_ecosystem/3_5_collections/src/main.rs:52 | the modelled search answers at the first probe that hits: on the unsorted ids [9, 5, 3] the search for 5 is Ok(1) |
| UserCollections.Retained | 3_ecosystem/3_5_collections/src/main.rs:47-54 | the users the retain keeps; RetainedUsers states that they are stored users whose id is in the list, and all of them when the list is sorted |
| UserCollections.RetainedUsers | 3_ecosystem/3_5_collections/src/main.rs:47-55 | every retained user is a stored user with an id in the list; for a sorted list, exactly those |
| UserCollections.SortedCopy | 3_ecosystem/3_5_collections/src/main.rs:48-49 | the sorted copy of the ids is sorted and has the same ids with the same multiplicities |
| UserCollections.InsertSortedMultiset | 3_ecosystem/3_5_collections/src/main.rs:49 | inserting into the sorted copy adds exactly the new id |
| UserCollections.InsertSortedOrder | 3_ecosystem/3_5_collections/src/main.rs:49 | inserting into a sorted sequence keeps it sorted |
| UserCollections.RetainedSortedCopy | 3_ecosystem/3_5_collections/src/main.rs:47-54 | searching the sorted copy keeps exactly the stored users whose id is in the list, with their records |
| UserCollections.UnsortedIdsDropUser | 3_ecosystem/3_5_collections/src/main.rs:47-54 | with users 1 and 3 and ids [3, 1] the search over the unsorted ids misses 3 and only user 1 is kept; the sorted copy keeps 3 |
| UserCollections.UsersRepository.constructor | 3_ecosystem/3_5_collections/src/main.rs:30-32 | a new repository has no users and no names |
| UserCollections.UsersRepository.Clone | 3_ecosystem/3_5_collections/src/main.rs:23-27 | a clone is a fresh repository with the same maps, so adding to it leaves the original alone |
| UserCollections.UsersRepository.AddUser | 3_ecosystem/3_5_collections/src/main.rs:34-37 | the user is stored under its id and the id under its name, overwriting those entries only |
| UserCollections.UsersRepository.UserById | 3_ecosystem/3_5_collections/src/main.rs:43-45 | the stored user for a known id, None for an id never added; in a valid repository the user found carries the id asked for and a registered name |
| UserCollections.UsersRepository.UsersByIds | 3_ecosystem/3_5_collections/src/main.rs:47-55 | the clone-and-retain loop yields the users kept by the search on the argument ids |
| UserCollections.UsersRepository.UsersByIdsCorrected | 3_ecosystem/3_5_collections/src/main.rs:47-54 | users_by_ids searching the sorted copy: exactly the stored users whose id is in the list, whatever its order |
| UserCollections.UsersRepository.IdsByNameSubstring | 3_ecosystem/3_5_collections/src/main.rs:57-62 | an id is returned exactly when some registered name containing the substring maps to it; the ids are those of the matching names, each name counted exactly once, in some order; in a valid repository every id returned is that of a stored user |
| UserCollections.NameExamples | 3_ecosystem/3_5_collections/src/main.rs:110-125 | with user1..user3 registered, "user" matches all three names and "r2" only "user2" |
| UserCollections.UserInEveryName | 3_ecosystem/3_5_collections/src/main.rs:116-119 | "user" is in all three test names |
| UserCollections.R2InOneName | 3_ecosystem/3_5_collections/src/main.rs:121-124 | "r2" is only in "user2" |
| UserCollections.FindUsers | 3_ecosystem/3_5_collections/src/main.rs:116-119 | with user1..user3 registered, the search for "user" returns the ids 1, 2 and 3, once each |
| UserCollections.FindR2 | 3_ecosystem/3_5_collections/src/main.rs:121-124 | with user1..user3 registered, the search for "r2" returns exactly [2] |
| UserCollections.NoUser4 | 3_ecosystem/3_5_collections/src/main.rs:143 | none of "user1", "user2" and "user3" contains "user4" |
| UserCollections.FindNoUser4 | 3_ecosystem/3_5_collections/src/main.rs:143 | on the original repository after the clone was changed, the search for "user4" finds nothing |
| UserCollections.LookupScenario | 3_ecosystem/3_5_collections/src/main.rs:75-93 | user_by_id finds each of user1..user3 with its id and name, and a repository holding only user 1 has nothing for id 2 |
| UserCollections.LookupByIdsScenario | 3_ecosystem/3_5_collections/src/main.rs:95-107 | users_by_ids(&[1, 3, 5]) holds exactly users 1 and 3 |
| UserCollections.RetainedExample | 3_ecosystem/3_5_collections/src/main.rs:95-107 | for user1..user3 and the ids [1, 3, 5], the users kept are exactly users 1 and 3 |
| UserCollections.NameSubstringScenario | 3_ecosystem/3_5_collections/src/main.rs:109-125 | "user" finds ids 1, 2 and 3 once each, and "r2" finds id 2 alone |
| UserCollections.CloneScenario | 3_ecosystem/3_5_collections/src/main.rs:127-144 | after user 4 is added to the clone, both repositories hold user 3, only the clone holds user 4, and the original finds no name containing "user4" |
| MemReplace.Rotate | 2_idioms/2_2_mem_replace/src/main.rs:38-47 | two swaps turn (a, b, c) into (b, c, a) |
| MemReplace.Rotated | 2_idioms/2_2_mem_replace/src/main.rs:38-47 | the value the two swaps leave; Rotate and RotateThrice state that it is (b, c, a) and that three rotations give the triple back |
| MemReplace.RotateThrice | 2_idioms/2_2_mem_replace/src/main.rs:38-47 | three rotations give the triple back, so the 3-step loops try every rotation |
| MemReplace.RotationsOfRotated | 2_idioms/2_2_mem_replace/src/main.rs:74-81 | being a rotation of a rotated triple is being a rotation of the triple |
| MemReplace.UnsolvedKeeps | 2_idioms/2_2_mem_replace/src/main.rs:68-86 | the filtered list keeps exactly the entries that are no rotation of the expected triple, in their old order |
| MemReplace.Unsolved | 2_idioms/2_2_mem_replace/src/main.rs:68-86 | what retain leaves; UnsolvedKeeps states that it keeps exactly the entries that are no rotation of the expected triple, in order |
| MemReplace.UnsolvedOfRotated | 2_idioms/2_2_mem_replace/src/main.rs:104-119 | filtering against a rotation of the expected triple filters the same entries |
| MemReplace.Solve | 2_idioms/2_2_mem_replace/src/main.rs:73-84 | the closure's 3-step loop drops an entry exactly when it is a rotation of the expected triple, and leaves the rotated copy a rotation of it (unchanged when the entry is kept) |
| MemReplace.Solver.constructor | 2_idioms/2_2_mem_replace/src/main.rs:59-63 | the solver holds the triple and the list given |
| MemReplace.Solver.Resolve | 2_idioms/2_2_mem_replace/src/main.rs:68-86 | unsolved loses exactly the rotations of expected, in order, and expected is unchanged |
| MemReplace.Solver.ResolveNoclone | 2_idioms/2_2_mem_replace/src/main.rs:104-119 | unsolved loses the same entries, and expected ends up as a rotation of its old value |
| MemReplace.RotatedBack | 2_idioms/2_2_mem_replace/src/main.rs:104-119 | against a rotated expected triple, the rotations are those of the original |
| MemReplace.ResolveScenario | 2_idioms/2_2_mem_replace/src/main.rs:3-28 | main: of the four triples, resolve and resolve_noclone both leave only (2, 1, 3) |
| Dispatch.SomeStorage.Default | 1_concepts/1_6_dispatch/src/main.rs:167-199 | the default storage holds exactly user1..user3 with ids 1..3, their e-mails, and activated |
| Dispatch.SomeStorage.Set | 1_concepts/1_6_dispatch/src/main.rs:154-156 | the key maps to the value, the other keys are unchanged |
| Dispatch.SomeStorage.Get | 1_concepts/1_6_dispatch/src/main.rs:158-160 | the stored value of a present key, None for a missing one |
| Dispatch.SomeStorage.Remove | 1_concepts/1_6_dispatch/src/main.rs:162-164 | returns the previous value and the key is gone |
| Dispatch.UserRepository.constructor | 1_concepts/1_6_dispatch/src/main.rs:39-45 | the repository wraps the storage given |
| Dispatch.UserRepository.Set | 1_concepts/1_6_dispatch/src/main.rs:51-54 | the key maps to the user, the other keys are unchanged |
| Dispatch.UserRepository.Get | 1_concepts/1_6_dispatch/src/main.rs:56-66 | a user with the stored id, e-mail and activated flag for a present key, None for a missing one |
| Dispatch.UserRepository.Remove | 1_concepts/1_6_dispatch/src/main.rs:68-73 | Ok exactly when the key was present, RepositoryUserNotFound otherwise; the key is then absent |
| Dispatch.UserRepository.Update | 1_concepts/1_6_dispatch/src/main.rs:75-90 | Err with storage unchanged on a missing key; otherwise the value replaced; never adds a key |
| Dispatch.CheckScenario | 1_concepts/1_6_dispatch/src/main.rs:201-256 | check_static (and check_dynamic, which makes the same calls): user3 is read back; removing user2 and updating user4 succeed; the same calls for user5 fail; user1, user3 and user4 remain |
| SizedRepository.User.New | 1_concepts/1_7_sized/src/repository.rs:16-24 | the user holds the id, e-mail and flag given |
| SizedRepository.SomeStorage.Default | 1_concepts/1_7_sized/src/repository.rs:90-122 | the default storage holds exactly user1..user3 |
| SizedRepository.SomeStorage.Set | 1_concepts/1_7_sized/src/repository.rs:77-79 | the key maps to the value, the other keys are unchanged |
| SizedRepository.SomeStorage.Get | 1_concepts/1_7_sized/src/repository.rs:81-83 | the stored value of a present key, None for a missing one |
| SizedRepository.SomeStorage.Remove | 1_concepts/1_7_sized/src/repository.rs:85-87 | returns the previous value (None and no change for a missing key); the key is gone, the others unchanged |
| SizedRepository.UserRepositoryStatic.constructor | 1_concepts/1_7_sized/src/repository.rs:45-51 | the repository wraps the storage given |
| SizedRepository.UserRepositoryStatic.Set | 1_concepts/1_7_sized/src/repository.rs:58-60 | the key maps to the value, the other keys are unchanged |
| SizedRepository.UserRepositoryStatic.Get | 1_concepts/1_7_sized/src/repository.rs:62-64 | after set(k, v), get(k) is v; None for a missing key |
| SizedRepository.UserRepositoryStatic.Remove | 1_concepts/1_7_sized/src/repository.rs:66-68 | returns the previous value and the key is gone, the others unchanged |
| SizedRepository.HandleCommand | 1_concepts/1_7_sized/src/main.rs:18-27 | always Ok, and the only change is the user stored under the command's username |
| SizedRepository.CheckStaticScenario | 1_concepts/1_7_sized/src/repository.rs:124-144 | check_static: user3 is read back, removing user2 gives its user back, and user1, user3 and the new user4 remain |
| SizedRepository.HandleCommandScenario | 1_concepts/1_7_sized/src/main.rs:54-81 | handling CreateUser("user") succeeds and stores the user with id 0, e-mail "" and activated under "user" |
| TypeSafety.NewPost | 2_idioms/2_1_type_safety/src/main.rs:57-64 | a new post is in state New with the user id, title and body given |
| TypeSafety.Publish | 2_idioms/2_1_type_safety/src/main.rs:66-73 | a New post becomes Unmoderated with the new id, content kept |
| TypeSafety.Allow | 2_idioms/2_1_type_safety/src/main.rs:77-84 | an Unmoderated post becomes Published with the same id, content kept |
| TypeSafety.Deny | 2_idioms/2_1_type_safety/src/main.rs:86-93 | an Unmoderated post becomes Deleted, content kept |
| TypeSafety.Delete | 2_idioms/2_1_type_safety/src/main.rs:96-104 | only a Published post can be deleted, and becomes Deleted |
| TypeSafety.Apply | 2_idioms/2_1_type_safety/src/main.rs:66-104 | a transition the post's type offers keeps the author, title and body and moves the post strictly forward in New, Unmoderated, Published, Deleted |
| TypeSafety.Run | 2_idioms/2_1_type_safety/src/main.rs:56-105 | a run of transitions that succeeds takes at least one lifecycle step per action, so it has at most three actions |
| TypeSafety.NoWayOut | 2_idioms/2_1_type_safety/src/main.rs:56-105 | nothing leaves Deleted, a New post cannot be deleted, and publish is the only step from New |
| TypeSafety.RunKeepsContent | 2_idioms/2_1_type_safety/src/main.rs:56-105 | any run of transitions keeps user id, title and body, and every step moves strictly forward |
| TypeSafety.DeletedIsFinal | 2_idioms/2_1_type_safety/src/main.rs:56-105 | no non-empty run starts from Deleted |
| TypeSafety.PathsToDeleted | 2_idioms/2_1_type_safety/src/main.rs:56-105 | a New post reaches Deleted only by publish then deny, or publish, allow then delete |
| TypeSafety.MainScenario | 2_idioms/2_1_type_safety/src/main.rs:107-136 | the two lifecycles of main run through, and deleting a denied post is refused |
| DateTime.WithBirthdate | 3_ecosystem/3_3_date_time/src/main.rs:16-18 | a user exactly for the dates from_ymd_opt accepts (year in range, month 1..12, day within the month, leap years counted) |
| DateTime.YearsSince | 3_ecosystem/3_3_date_time/src/main.rs:21-26 | None exactly when the base date is after now; otherwise the anniversary that many years on is not after now and the next one is |
| DateTime.MonthDayOrder | 3_ecosystem/3_3_date_time/src/main.rs:21-26 | comparing packed month-and-day numbers is comparing (month, day) pairs |
| DateTime.Age | 3_ecosystem/3_3_date_time/src/main.rs:21-26 | 0 for a birth date after 2019-06-26 |
| DateTime.AgeIsWholeYears | 3_ecosystem/3_3_date_time/src/main.rs:21-26 | for a birth date not after NOW, the age is the number of whole years lived by NOW |
| DateTime.IsAdultIff | 3_ecosystem/3_3_date_time/src/main.rs:29-31 | is_adult (age >= 18) holds exactly when the 18th birthday is not after NOW |
| DateTime.IsAdult | 3_ecosystem/3_3_date_time/src/main.rs:29-31 | age() >= 18; IsAdultIff states that it holds exactly when the 18th birthday is on or before 2019-06-26 |
| DateTime.LeapDay | 3_ecosystem/3_3_date_time/src/main.rs:16-18 | February 29 is a valid date exactly in leap years |
| DateTime.InvalidBirthdates | 3_ecosystem/3_3_date_time/src/main.rs:95-111 | year 300000, month 13 and 2023-02-29 are refused |
| DateTime.CountsAge | 3_ecosystem/3_3_date_time/src/main.rs:38-50 | the ages of the counts_age test: 29, 28, 2019, 49 and 0 |
| DateTime.ZeroIfBirthdateInFuture | 3_ecosystem/3_3_date_time/src/main.rs:52-63 | the birth dates after NOW of the test give age 0 |
| DateTime.AdultTests | 3_ecosystem/3_3_date_time/src/main.rs:65-93 | born 2001-06-27 is not an adult; born 2001-06-25 or 2001-06-26 is |
| EmailStrings.Split | 1_concepts/1_5_convert_cast_deref/src/email_string.rs:10 | splitting at "@" always yields at least one piece |
| EmailStrings.FirstAt | 1_concepts/1_5_convert_cast_deref/src/email_string.rs:10-14 | the index of the first '@', the length when there is none |
| EmailStrings.SplitHead | 1_concepts/1_5_convert_cast_deref/src/email_string.rs:10-14 | the first piece runs to the first '@', a second piece exists exactly when there is an '@', and the rest is the split of what follows it |
| EmailStrings.RPositionDot | 1_concepts/1_5_convert_cast_deref/src/email_string.rs:16 | the index of the last '.', None when there is none |
| EmailStrings.New | 1_concepts/1_5_convert_cast_deref/src/email_string.rs:9-28 | an accepted e-mail string keeps the input as given |
| EmailStrings.NewDomain | 1_concepts/1_5_convert_cast_deref/src/email_string.rs:9-28 | new accepts exactly a string with an '@' whose domain (up to the next '@') has a '.' after its first character |
| EmailStrings.LooksLikeDomain | 1_concepts/1_5_convert_cast_deref/src/email_string.rs:11-21 | the domain form and the index form of the check agree |
| EmailStrings.NewIff | 1_concepts/1_5_convert_cast_deref/src/email_string.rs:9-28 | new is Ok exactly for an '@' with none before it and a '.' later, not right after the '@' and with no '@' between; only the first two pieces matter and the local part may be empty |
| EmailStrings.ConversionsAgree | 1_concepts/1_5_convert_cast_deref/src/email_string.rs:31-69 | from_str and try_from agree with new, and Display, Borrow, AsRef and String::from give back the input |
| EmailStrings.FromStr | 1_concepts/1_5_convert_cast_deref/src/email_string.rs:31-37 | from_str is new; ConversionsAgree states it |
| EmailStrings.TryFrom | 1_concepts/1_5_convert_cast_deref/src/email_string.rs:57-63 | try_from goes through from_str; ConversionsAgree states that it is new |
| EmailStrings.Display | 1_concepts/1_5_convert_cast_deref/src/email_string.rs:39-43 | writes the inner string; ConversionsAgree states that an accepted input is shown as itself |
| EmailStrings.Borrow | 1_concepts/1_5_convert_cast_deref/src/email_string.rs:45-49 | the inner string; ConversionsAgree states that an accepted input is borrowed as itself |
| EmailStrings.AsRef | 1_concepts/1_5_convert_cast_deref/src/email_string.rs:51-55 | the inner string; ConversionsAgree states that an accepted input is viewed as itself |
| EmailStrings.IntoString | 1_concepts/1_5_convert_cast_deref/src/email_string.rs:65-69 | the inner string; ConversionsAgree states that an accepted input converts back to itself |
| EmailStrings.AcceptsExample | 1_concepts/1_5_convert_cast_deref/src/main.rs:35-36 | "my@email.com" converts |
| EmailStrings.RejectsExample | 1_concepts/1_5_convert_cast_deref/src/main.rs:37 | "not_an_email" does not convert |
| RcCell.SharedStack.constructor | 1_concepts/1_3_rc_cell/src/main.rs:10-12 | a new stack is a fresh, empty vector |
| RcCell.Cell.constructor | 1_concepts/1_3_rc_cell/src/main.rs:3-12 | the shared RefCell starts with an empty vector |
| RcCell.SharedStack.Clone | 1_concepts/1_3_rc_cell/src/main.rs:3-6 | a clone shares the vector of the original |
| RcCell.SharedStack.Push | 1_concepts/1_3_rc_cell/src/main.rs:14-17 | the item goes on top |
| RcCell.SharedStack.Pop | 1_concepts/1_3_rc_cell/src/main.rs:19-23 | None and no change on an empty stack; otherwise the top item, which is taken off |
| RcCell.SharedStack.PeekCheck | 1_concepts/1_3_rc_cell/src/main.rs:28-32 | false on an empty stack, otherwise what the predicate says of the top item |
| RcCell.SharedStack.PeekInspect | 1_concepts/1_3_rc_cell/src/main.rs:34-40 | the callback is given the top item, and is not called on an empty stack |
| RcCell.SharedStack.IsEmpty | 1_concepts/1_3_rc_cell/src/main.rs:42-46 | true exactly when the vector is empty |
| RcCell.PushPop | 1_concepts/1_3_rc_cell/src/main.rs:14-23 | a push then a pop, through any handles on the same vector, gives the item back and the old contents |
| RcCell.MainScenario | 1_concepts/1_3_rc_cell/src/main.rs:49-67 | main: the second handle sees 20 on top, the first sees the 1 pushed through the second, three pops give 1, 20 and 15, and the stack is then empty |
| MutMe.TestStruct.constructor | 1_concepts/1_2_box_pin/src/mut_me_trait.rs:3-6 | the derived default has field 0 |
| MutMe.TestStruct.MakeAMut | 1_concepts/1_2_box_pin/src/mut_me_trait.rs:12-16 | the field goes up by exactly 1 |
| MutMe.MakeAMutBox | 1_concepts/1_2_box_pin/src/mut_me_trait.rs:24-28 | the boxed value's field goes up by 1 |
| MutMe.MakeAMutRc | 1_concepts/1_2_box_pin/src/mut_me_trait.rs:18-22 | succeeds exactly when the Rc is the only handle, and then adds 1; the shared case fails and changes nothing |
| MutMe.Rc.constructor | 1_concepts/1_2_box_pin/src/mut_me_trait.rs:18-22 | Rc::new: the value with a strong count of 1, so make_a_mut may change it |
| MutMe.MakeAMutVec | 1_concepts/1_2_box_pin/src/mut_me_trait.rs:30-36 | every element's field goes up by 1 |
| MutMe.MakeAMutString | 1_concepts/1_2_box_pin/src/mut_me_trait.rs:38-42 | the old text followed by " mutated" |
| MutMe.MakeAMutSlice | 1_concepts/1_2_box_pin/src/mut_me_trait.rs:44-48 | the slice becomes empty |
| MutMe.Scenario | 1_concepts/1_2_box_pin/src/mut_me_trait.rs:12-42 | a box then a vector of two counters give fields 1 and 2; a unique Rc succeeds and a shared one fails leaving 2; "text" becomes "text mutated" |
| GenericInTypeOut.Error.Default | 2_idioms/2_4_generic_in_type_out/src/main.rs:17-26 | code "UNKNOWN", status 500, message "Unknown error has happened." |
| GenericInTypeOut.Error.New | 2_idioms/2_4_generic_in_type_out/src/main.rs:29-33 | the default error with the code given |
| GenericInTypeOut.Error.Status | 2_idioms/2_4_generic_in_type_out/src/main.rs:35-38 | only the status changes, and the same error is handed back for chaining |
| GenericInTypeOut.Error.Message | 2_idioms/2_4_generic_in_type_out/src/main.rs:40-43 | only the message changes, and the same error is handed back for chaining |
| GenericInTypeOut.Server.constructor | 2_idioms/2_4_generic_in_type_out/src/main.rs:49-52 | a new server has no address |
| GenericInTypeOut.Server.Bind | 2_idioms/2_4_generic_in_type_out/src/main.rs:54-56 | the address becomes (ip, port), whatever it was before |
| GenericInTypeOut.MainScenario | 2_idioms/2_4_generic_in_type_out/src/main.rs:3-8 | main: the chained calls leave code "NO_USER", status 404 and message "User not found" |
| GenericInTypeOut.BindScenario | 2_idioms/2_4_generic_in_type_out/src/main.rs:66-76 | sets_provided_address_to_server: the first bind gives 127.0.0.1:8080, and the second replaces it with [::1]:9911 |

## Left out

- Concurrency in `dl_list.rs` is not modelled: the compare-and-swap retry loops, the atomic orderings, the mutex, and the threaded tests of `1_concepts/src/main.rs`. Every compare-and-swap is modelled by its outcome in a single thread, where it succeeds the first time.
- DlList: `Box::from_raw` deallocation becomes the node leaving the ghost `nodes` chain. The `usize` counter is an unbounded `nat`, so `fetch_add` wrap-around at `usize::MAX` is not modelled.
- DlList.DoubleLinkList.HeadInspect, DlList.DoubleLinkList.TailInspect: the callback's side effect is modelled as the value the callback computes.
- DlList: the closures of `head_check`, `tail_check` and `check_value` are total Dafny functions; effects inside a closure are not modelled.
- VendingMachines.MakeArray: a pair naming no coin is an `Err` here, where the source panics on `unwrap`. `make_array` is modelled only for counts and `Price`s, not for any `Into<Price>`.
- VendingMachines.Price.Add: the inputs whose sum overflows `u64` (a panic in debug builds) are excluded by `requires`.
- VendingMachines.Price.Sub: the inputs whose difference underflows `u64` (a panic in debug builds) are excluded by `requires`.
- VendingMachines.SumPrices: the lists whose total overflows `u64` (a panic in debug builds, from the `+=` of the loop) are excluded by `requires Total(items) < U64_LIMIT`.
- `3_ecosystem/3_4_regex_parsing/src/main.rs:32-61`: `parse_regex` and `FMT_REGEX_SPEC` are not modelled; they wrap the regex crate, and their regular expression makes the precision mandatory. The PEG grammar is the reference instead.
- FormatSpecs: the debug `println!` calls are not modelled.
- FormatSpecs: `ASCII_ALPHA` and the other pest character classes are the ASCII ranges; the grammar's `ANY` fill is any single `char`.
- FormatSpecs: pest's parse-error path cannot be reached, because every rule of `format_spec` is optional.
- FormatSpecs: the pairs carry the children the parse loops read; `fill` and `align` are kept as the text of `fill_align`.
- FormatSpecs.ParseUsize: `str::parse::<usize>` is assumed for a 64-bit target.
- UserCollections.BinarySearch: the standard library's `binary_search` is modelled by the search it used before its branch-free rewrite: probe `mid = left + (right - left) / 2` and return at the first hit. `BinarySearchFinds` (Ok only for a present key; Ok exactly for a present key on a sorted list) holds for every correct binary search. On an unsorted list, which `users_by_ids` passes in, the exact result is that implementation's: on [9, 5, 3] the search for 5 is Ok(1) here (`EarlyReturnSearch`) and Err(3) in the rewritten search. So `UsersByIds`'s `res == Retained(users, ids)` and `UnsortedIdsDropUser` describe that implementation; the ids [3, 1] of the finding give Err(2) for 3 under both.
- UserCollections.SortedCopy: `slice::sort` is modelled by an insertion sort. Every sort of the same ids yields the same ascending sequence, so the result does not depend on the algorithm.
- UserCollections.UsersRepository.IdsByNameSubstring: the order of the ids follows `HashMap` iteration, which is unspecified, so the contract fixes the ids only up to order (one per matching name, listed by a ghost sequence of the names).
- UserCollections: the `PartialEq` of `User` (`3_ecosystem/3_5_collections/src/main.rs:9-13`, ids only) is not modelled: no operation or test of the repository compares users with it.
- Dispatch: `UserRepositoryStatic` and `UserRepositoryDynamic` have the same bodies over a storage behind a cell, so one class models both.
- Dispatch: the generic `Storage` trait is modelled only by the `SomeStorage` implementation the program uses.
- Dispatch: `RefCell` borrow panics cannot happen in one thread and are not modelled.
- SizedRepository.HandleCommand: it is modelled against `UserRepositoryStatic` over `SomeStorage`. The test's recording `FakeUserRepository` (`1_concepts/1_7_sized/src/main.rs:34-52`) is not modelled; the contract "only this key changes" takes its place.
- TypeSafety: the typestate the compiler enforces is modelled as each transition's `requires` and as `Apply` returning `None` for a transition the types rule out. The newtype wrappers for ids, titles and bodies are plain values.
- TypeSafety.MainScenario: the post bodies of `main` are shortened to "body".
- DateTime: chrono is not called; its proleptic Gregorian calendar and its year range are written out. The range is that of the chrono 0.4 releases whose bounds are `i32::MIN >> 13` and `i32::MAX >> 13` (−262144 to 262143); no crate version is pinned by the program. Releases that narrow the range by one year at each end would reject the years −262144 and 262143, which `WithBirthdate` accepts here. The text "2019-06-26" is not parsed: NOW is that date as a constant.
- DateTime.WithBirthdate: the panic of `unwrap` on an invalid date is modelled as `None`.
- DateTime.Age: the function states only the zero-after-NOW case; the whole-years property is stated by the lemmas `AgeIsWholeYears` and `YearsSince`.
- EmailStrings: the source works on the UTF-8 bytes (`rposition` over `as_bytes`); the model works on `char`s. Both kinds of position agree for the ASCII `@` and `.` that are searched for.
- MutMe.TestStruct.MakeAMut: the `usize::MAX` overflow (a panic in debug builds, wrap-around in release) is excluded by `requires`.
- MutMe.MakeAMutBox: the same `usize::MAX` overflow of the boxed value's field is excluded by `requires`.
- MutMe.MakeAMutVec: the same `usize::MAX` overflow of every element is excluded by `requires`. The elements are also required to be distinct objects, which is how the model states that a `Vec` owns its elements.
- MutMe.MakeAMutRc: the strong count of the `Rc` is an explicit field, and the panic on a shared `Rc` is an `Err`. For an `Rc` that is the only handle, the same `usize::MAX` overflow is excluded by `requires`.
- MutMe: the `Box` and `Vec` impls, which the source defines for any `TraitforMut`, are modelled for `TestStruct` only.
- `1_concepts/1_2_box_pin/src/mut_me_trait.rs:50-98`: `mut_me_somehow` and its `Pin` plumbing are not modelled.
- GenericInTypeOut: the formatting of `SocketAddr`, and `Into<IpAddr>` for the standard-library address types, are not modelled. An address is its octets or segments.
- `println!` output everywhere, including the `Debug` output of `main` in `2_idioms/2_2_mem_replace/src/main.rs`, is not modelled.

## Findings

| source | as written | input that shows it | evidently intended | confidence | as-written member | corrected member |
|---|---|---|---|---|---|---|
| 2_idioms/src/main.rs:174-176 | the partition predicate calls `change_values.remove(0)` for every coin while change values remain, matched or not, so a non-matching coin uses up a change value | coins [Fifty, Fifty, Twenty], price 30, payment 100: the change values are [50, 20], but the first Fifty takes the 50, the second Fifty is compared with the 20 and removes it, Twenty finds the list empty, and only [Fifty] (50 of the 70) is handed out | a change value is consumed only when the coin matches it, so the coins given have exactly the change values | not executed | VendingMachines.VendingMachine.Buy, VendingMachines.PartitionAsWrittenShortChange, VendingMachines.ShortChangeScenario | VendingMachines.VendingMachine.BuyCorrected, VendingMachines.PartitionChangeGivesChange, VendingMachines.PartitionChangeFullChange |
| 3_ecosystem/3_5_collections/src/main.rs:47-54 | users_by_ids sorts a copy of the ids into `sorted_ids` but runs `binary_search` on the unsorted argument `ids`, so the search can miss an id that is there | users 1 and 3, ids [3, 1]: the search for 3 looks at index 1, finds 1 < 3 and answers Err, so user 3 is dropped and only user 1 is returned | the search runs over `sorted_ids`, so every stored user whose id is in the list is returned, whatever the order of the list | not executed | UserCollections.UsersRepository.UsersByIds, UserCollections.RetainedUsers, UserCollections.UnsortedIdsDropUser | UserCollections.UsersRepository.UsersByIdsCorrected, UserCollections.RetainedSortedCopy, UserCollections.SortedCopy |
| 3_ecosystem/3_4_regex_parsing/src/main.rs:134-138 | Precision::from_str cuts the leading zeros with `trim_start_matches('0')` before parsing, so a number that is all zeros becomes the empty string, which does not parse | ".0" (and ".0$"): dot_precision matches, but the text "0" is trimmed to "" and parse_parser returns no precision at all instead of Integer(0) (Argument(0)) | the number is parsed as it stands (usize parsing already accepts leading zeros), so ".0" is precision 0 | not executed | FormatSpecs.PrecisionFromStr, FormatSpecs.PrecisionAsWrittenDigits, FormatSpecs.DotZeroHasNoPrecision | FormatSpecs.PrecisionFromStrCorrected, FormatSpecs.PrecisionRoundTripCorrected, FormatSpecs.PrecisionOfRenderCorrected |
