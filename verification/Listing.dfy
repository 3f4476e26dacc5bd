/**
 Octal rope listings: bank cards and word cards.  A listing is accepted exactly when it holds
 each of the 36 banks once, with 1,024 words whose checksum is the bank's number or its
 negative; the bytes made of it load as the words that were listed.
 */
module Listing {
  import opened Wrappers
  import opened Words
  import opened Rope

  /** A word of a card: '@' for an unused cell, or five octal digits if they are that. */
  datatype Token = Unused | Octal(word: Option<Word>)

  /** A card without its comment; a bank card holds its number if it is octal. */
  datatype Card = BankCard(bank: Option<nat>) | WordCard(tokens: seq<Token>)

  datatype ListingError =
    | InvalidBank | BankOutside(bank: nat) | BankTwice(bank: nat) | WordsBeforeBank | InvalidWord
    | TooManyWords(bank: nat) | MissingBanks | WrongLength(bank: nat) | WrongChecksum(bank: nat)

  type Banks = map<nat, seq<Word>>

  // ----- reading cards -----

  datatype Reading = Reading(banks: Banks, current: Option<nat>)

  function TakeToken(words: seq<Word>, t: Token, bank: nat): Result<seq<Word>, ListingError> {
    var word :- match t
                case Unused => Success(POSITIVE_ZERO)
                case Octal(Some(w)) => Success(w)
                case Octal(None) => Failure(InvalidWord);
    if |words| + 1 > 1024 then Failure(TooManyWords(bank)) else Success(words + [word])
  }

  function TakeTokens(words: seq<Word>, tokens: seq<Token>, bank: nat, n: nat): Result<seq<Word>, ListingError>
    requires n <= |tokens|
  {
    if n == 0 then Success(words)
    else
      var before :- TakeTokens(words, tokens, bank, n - 1);
      TakeToken(before, tokens[n - 1], bank)
  }

  function TakeCard(r: Reading, c: Card): Result<Reading, ListingError>
    requires r.current.Some? ==> r.current.value in r.banks
  {
    match c
    case BankCard(None) => Failure(InvalidBank)
    case BankCard(Some(bank)) =>
      if bank > 35 then Failure(BankOutside(bank))
      else if bank in r.banks then Failure(BankTwice(bank))
      else Success(Reading(r.banks[bank := []], Some(bank)))
    case WordCard(tokens) =>
      if r.current.None? then Failure(WordsBeforeBank)
      else
        var bank := r.current.value;
        var words :- TakeTokens(r.banks[bank], tokens, bank, |tokens|);
        Success(r.(banks := r.banks[bank := words]))
  }

  function ReadCards(cards: seq<Card>, n: nat): (r: Result<Reading, ListingError>)
    requires n <= |cards|
    ensures r.Success? && r.value.current.Some? ==> r.value.current.value in r.value.banks
  {
    if n == 0 then Success(Reading(map[], None))
    else
      var before :- ReadCards(cards, n - 1);
      TakeCard(before, cards[n - 1])
  }

  // ----- checksums -----

  const MODULUS := MAX_MAGNITUDE

  /** A sum folded back into one word; overflow carries around. */
  function ChecksumAdd(l: Word, r: Word): Word {
    var sum := Value(l) + Value(r);
    var folded := if sum > MAX_MAGNITUDE then sum - (MAX_MAGNITUDE + 1) + 1
                  else if sum < -MAX_MAGNITUDE then sum + (MAX_MAGNITUDE + 1) - 1
                  else sum;
    WordLaws.FromIntValue(folded);
    FromInt(folded).value
  }

  function Checksum(words: seq<Word>): Word {
    if words == [] then POSITIVE_ZERO
    else ChecksumAdd(Checksum(words[..|words| - 1]), words[|words| - 1])
  }

  function Total(words: seq<Word>): int {
    if words == [] then 0 else Total(words[..|words| - 1]) + Value(words[|words| - 1])
  }

  predicate Congruent(a: int, b: int) {
    (a - b) % MODULUS == 0
  }

  lemma CongruentThrough(a: int, b: int, c: int)
    requires Congruent(a, b) && Congruent(b, c)
    ensures Congruent(a, c)
  {
    var m, n := (a - b) / MODULUS, (b - c) / MODULUS;
    assert a - c == MODULUS * (m + n);
  }

  lemma CongruentShift(a: int, b: int, c: int)
    requires Congruent(a, b)
    ensures Congruent(a + c, b + c)
  {
  }

  /** A bank's checksum stands for the sum of its words, modulo the largest magnitude. */
  lemma {:induction false} ChecksumIsTotal(words: seq<Word>)
    ensures Congruent(Value(Checksum(words)), Total(words))
    decreases |words|
  {
    hide Congruent, Value, FromInt;
    if words == [] {
      NothingSummed();
    } else {
      var n := |words| - 1;
      ChecksumIsTotal(words[..n]);
      var before, w := Checksum(words[..n]), words[n];
      AddsCongruent(before, w);
      CongruentShift(Value(before), Total(words[..n]), Value(w));
      CongruentThrough(Value(Checksum(words)), Value(before) + Value(w), Total(words));
    }
  }

  lemma NothingSummed()
    ensures Congruent(Value(POSITIVE_ZERO), 0)
  {
  }

  lemma AddsCongruent(l: Word, r: Word)
    ensures Congruent(Value(ChecksumAdd(l, r)), Value(l) + Value(r))
  {
    var sum := Value(l) + Value(r);
    WordLaws.FromIntValue(if sum > MAX_MAGNITUDE then sum - MAX_MAGNITUDE
                          else if sum < -MAX_MAGNITUDE then sum + MAX_MAGNITUDE else sum);
  }

  // ----- acceptance -----

  predicate SumsToBank(words: seq<Word>, bank: nat)
    requires bank < 36
  {
    Checksum(words) == bank || Checksum(words) == Complement(bank)
  }

  /** The banks are exactly those of the rope. */
  predicate AllBanks(banks: Banks) {
    (forall b :: b in banks ==> b < 36) && forall b: nat :: b < 36 ==> b in banks
  }

  /** Each bank once, whole, with its checksum. */
  predicate Complete(banks: Banks) {
    AllBanks(banks) && forall b: nat :: b < 36 ==> |banks[b]| == 1024 && SumsToBank(banks[b], b)
  }

  /** The first bank that is short or does not sum, as the check in bank order finds it. */
  function BankTrouble(banks: Banks, b: nat): Option<ListingError>
    requires forall k: nat :: k < 36 ==> k in banks
    requires b <= 36
    decreases 36 - b
  {
    if b == 36 then None
    else if |banks[b]| != 1024 then Some(WrongLength(b))
    else if !SumsToBank(banks[b], b) then Some(WrongChecksum(b))
    else BankTrouble(banks, b + 1)
  }

  lemma {:induction false} NoTroubleExactly(banks: Banks, b: nat)
    requires b <= 36 && forall k: nat :: k < 36 ==> k in banks
    ensures BankTrouble(banks, b) == None <==>
            forall k: nat :: b <= k < 36 ==> |banks[k]| == 1024 && SumsToBank(banks[k], k)
    decreases 36 - b
  {
    hide SumsToBank;
    if b < 36 {
      NoTroubleExactly(banks, b + 1);
    }
  }

  /** The words of all banks in physical order. */
  function RopeOf(banks: Banks): (words: M.Rope)
    requires Complete(banks)
    ensures forall p: nat :: p < M.ROPE_WORDS ==> words[p] == banks[p / 1024][p % 1024]
  {
    seq(M.ROPE_WORDS, p requires 0 <= p < M.ROPE_WORDS => banks[p / 1024][p % 1024])
  }

  ghost function Listed(cards: seq<Card>): Result<seq<Byte>, ListingError> {
    match ReadCards(cards, |cards|)
    case Failure(e) => Failure(e)
    case Success(r) =>
      if !AllBanks(r.banks) then Failure(MissingBanks)
      else
        var trouble := BankTrouble(r.banks, 0);
        if trouble.Some? then Failure(trouble.value)
        else
          NoTroubleExactly(r.banks, 0);
          Success(Serialised(RopeOf(r.banks)))
  }

  /** Reads a listing card by card, checks its banks in order and writes it out. */
  method AssembleListing(cards: seq<Card>) returns (r: Result<seq<Byte>, ListingError>)
    ensures r == Listed(cards)
  {
    hide TakeTokens, TakeToken, Checksum, Serialised;
    var banks: Banks := map[];
    var current: Option<nat> := None;
    for i := 0 to |cards|
      invariant current.Some? ==> current.value in banks
      invariant ReadCards(cards, i) == Success(Reading(banks, current))
    {
      var next := TakeCard(Reading(banks, current), cards[i]);
      if next.Failure? {
        FailureStays(cards, i + 1, |cards|);
        return Failure(next.error);
      }
      banks, current := next.value.banks, next.value.current;
    }
    if !AllBanks(banks) {
      return Failure(MissingBanks);
    }
    for b := 0 to 36
      invariant BankTrouble(banks, 0) == BankTrouble(banks, b)
    {
      if |banks[b]| != 1024 {
        return Failure(WrongLength(b));
      }
      if !SumsToBank(banks[b], b) {
        return Failure(WrongChecksum(b));
      }
    }
    NoTroubleExactly(banks, 0);
    r := Success(Serialised(RopeOf(banks)));
  }

  lemma {:induction false} FailureStays(cards: seq<Card>, m: nat, n: nat)
    requires m <= n <= |cards| && ReadCards(cards, m).Failure?
    ensures ReadCards(cards, n) == ReadCards(cards, m)
    decreases n
  {
    hide TakeCard;
    if m < n {
      FailureStays(cards, m, n - 1);
    }
  }

  // ----- what was listed -----

  /** The words the cards list for a bank, read without any checks. */
  function TokenWord(t: Token): Word {
    match t
    case Octal(Some(w)) => w
    case _ => POSITIVE_ZERO
  }

  function TokenWords(tokens: seq<Token>): seq<Word> {
    seq(|tokens|, i requires 0 <= i < |tokens| => TokenWord(tokens[i]))
  }

  /** The bank whose cards are being read at a point. */
  function BankAt(cards: seq<Card>, n: nat): Option<nat>
    requires n <= |cards|
  {
    if n == 0 then None
    else if cards[n - 1].BankCard? then cards[n - 1].bank
    else BankAt(cards, n - 1)
  }

  function Gathered(cards: seq<Card>, n: nat, bank: nat): seq<Word>
    requires n <= |cards|
  {
    if n == 0 then []
    else
      Gathered(cards, n - 1, bank)
      + if cards[n - 1].WordCard? && BankAt(cards, n - 1) == Some(bank) then TokenWords(cards[n - 1].tokens) else []
  }

  lemma {:induction false} TokensGather(words: seq<Word>, tokens: seq<Token>, bank: nat, n: nat)
    requires n <= |tokens| && TakeTokens(words, tokens, bank, n).Success?
    ensures TakeTokens(words, tokens, bank, n).value == words + TokenWords(tokens[..n])
    decreases n
  {
    if n > 0 {
      TokensGather(words, tokens, bank, n - 1);
      assert TokenWords(tokens[..n]) == TokenWords(tokens[..n - 1]) + [TokenWord(tokens[n - 1])];
    }
  }

  /** Reading keeps, bank by bank, exactly the words listed under the bank's card. */
  lemma {:induction false} ReadingGathers(cards: seq<Card>, n: nat)
    requires n <= |cards| && ReadCards(cards, n).Success?
    ensures var r := ReadCards(cards, n).value;
            && r.current == BankAt(cards, n)
            && (forall b :: b in r.banks ==> b < 36 && r.banks[b] == Gathered(cards, n, b) && |r.banks[b]| <= 1024)
            && (forall b :: b !in r.banks ==> Gathered(cards, n, b) == [])
    decreases n
  {
    hide TakeTokens, TokenWords;
    if n > 0 {
      ReadingGathers(cards, n - 1);
      var r, c := ReadCards(cards, n - 1).value, cards[n - 1];
      if c.WordCard? {
        var bank := r.current.value;
        TokensGather(r.banks[bank], c.tokens, bank, |c.tokens|);
        assert c.tokens[..|c.tokens|] == c.tokens;
        TokensFit(r.banks[bank], c.tokens, bank, |c.tokens|);
      }
    }
  }

  lemma {:induction false} TokensFit(words: seq<Word>, tokens: seq<Token>, bank: nat, n: nat)
    requires n <= |tokens| && |words| <= 1024 && TakeTokens(words, tokens, bank, n).Success?
    ensures |TakeTokens(words, tokens, bank, n).value| <= 1024
    decreases n
  {
    if n > 0 {
      TokensFit(words, tokens, bank, n - 1);
    }
  }

  predicate Legible(t: Token) {
    t.Unused? || t.word.Some?
  }

  /** A bank card names a bank of the rope that no earlier card named; a word card stands
      under a bank card and all its words are octal. */
  predicate InOrder(cards: seq<Card>, k: nat)
    requires k < |cards|
  {
    match cards[k]
    case BankCard(bank) => bank.Some? && bank.value < 36 && forall j :: 0 <= j < k ==> cards[j] != cards[k]
    case WordCard(tokens) => BankAt(cards, k).Some? && forall t :: t in tokens ==> Legible(t)
  }

  predicate Within(cards: seq<Card>, n: nat, bank: nat)
    requires n <= |cards|
  {
    |Gathered(cards, n, bank)| <= 1024
  }

  predicate Fits(cards: seq<Card>, n: nat)
    requires n <= |cards|
  {
    forall b: nat :: b < 36 ==> Within(cards, n, b)
  }

  /** A bank's listed words fill it, and their checksum is its number or its complement. */
  predicate Whole(cards: seq<Card>, bank: nat)
    requires bank < 36
  {
    |Gathered(cards, |cards|, bank)| == 1024 && SumsToBank(Gathered(cards, |cards|, bank), bank)
  }

  lemma {:induction false} TokensTaken(words: seq<Word>, tokens: seq<Token>, bank: nat, n: nat)
    requires n <= |tokens| && |words| <= 1024
    ensures TakeTokens(words, tokens, bank, n).Success? <==>
            |words| + n <= 1024 && forall i :: 0 <= i < n ==> Legible(tokens[i])
    decreases n
  {
    if n > 0 {
      TokensTaken(words, tokens, bank, n - 1);
      if TakeTokens(words, tokens, bank, n - 1).Success? {
        TokensGather(words, tokens, bank, n - 1);
      }
    }
  }

  /** The banks read are exactly those that have a card. */
  lemma {:induction false} ReadingNames(cards: seq<Card>, n: nat)
    requires n <= |cards| && ReadCards(cards, n).Success?
    ensures forall b :: b in ReadCards(cards, n).value.banks <==>
                        exists k :: 0 <= k < n && cards[k] == BankCard(Some(b))
    decreases n
  {
    hide TakeTokens;
    if n > 0 {
      ReadingNames(cards, n - 1);
    }
  }

  /** A listing reads exactly when each of its cards is in order and no bank gets too many words. */
  lemma {:induction false} ReadsExactly(cards: seq<Card>, n: nat)
    requires n <= |cards|
    ensures ReadCards(cards, n).Success? <==> Fits(cards, n) && forall k: nat :: k < n ==> InOrder(cards, k)
    decreases n
  {
    hide TakeTokens, Fits, InOrder;
    if n == 0 {
      NothingFits(cards);
    } else {
      ReadsExactly(cards, n - 1);
      FitsBefore(cards, n - 1);
      if ReadCards(cards, n - 1).Success? {
        CardTaken(cards, n - 1);
      }
    }
  }

  lemma NothingFits(cards: seq<Card>)
    ensures Fits(cards, 0)
  {
  }

  lemma FitsBefore(cards: seq<Card>, n: nat)
    requires n < |cards|
    ensures Fits(cards, n + 1) ==> Fits(cards, n)
  {
    if Fits(cards, n + 1) {
      forall b: nat | b < 36
        ensures Within(cards, n, b)
      {
        assert Within(cards, n + 1, b);
      }
    }
  }

  lemma CardTaken(cards: seq<Card>, n: nat)
    requires n < |cards| && ReadCards(cards, n).Success? && Fits(cards, n)
    ensures TakeCard(ReadCards(cards, n).value, cards[n]).Success? <==> InOrder(cards, n) && Fits(cards, n + 1)
  {
    hide TakeTokens, ReadCards, TokenWords, Fits, Gathered, BankAt;
    var r := ReadCards(cards, n).value;
    ReadingGathers(cards, n);
    if cards[n].BankCard? {
      ReadingNames(cards, n);
      BankCardFits(cards, n);
    } else if r.current.Some? {
      var bank, tokens := r.current.value, cards[n].tokens;
      assert bank in r.banks;
      Bounded(cards, n, bank);
      TokensTaken(r.banks[bank], tokens, bank, |tokens|);
      WordsOfTokens(tokens);
      WordCardFits(cards, n, bank);
    }
  }

  lemma Bounded(cards: seq<Card>, n: nat, bank: nat)
    requires n <= |cards| && Fits(cards, n) && bank < 36
    ensures |Gathered(cards, n, bank)| <= 1024
  {
    hide Gathered;
    assert Within(cards, n, bank);
  }

  lemma BankCardFits(cards: seq<Card>, n: nat)
    requires n < |cards| && cards[n].BankCard?
    ensures Fits(cards, n + 1) <==> Fits(cards, n)
  {
    FitsBefore(cards, n);
    var next := n + 1;
    if Fits(cards, n) {
      forall b: nat | b < 36
        ensures Within(cards, next, b)
      {
        assert Within(cards, n, b);
      }
    }
  }

  lemma WordCardFits(cards: seq<Card>, n: nat, bank: nat)
    requires n < |cards| && cards[n].WordCard? && BankAt(cards, n) == Some(bank) && bank < 36 && Fits(cards, n)
    ensures Fits(cards, n + 1) <==> |Gathered(cards, n, bank)| + |cards[n].tokens| <= 1024
  {
    hide TokenWords;
    WordsOfTokens(cards[n].tokens);
    if Fits(cards, n + 1) {
      assert Within(cards, n + 1, bank);
    }
    var next := n + 1;
    if |Gathered(cards, n, bank)| + |cards[n].tokens| <= 1024 {
      forall b: nat | b < 36
        ensures Within(cards, next, b)
      {
        assert Within(cards, n, b);
      }
    }
  }

  lemma WordsOfTokens(tokens: seq<Token>)
    ensures |TokenWords(tokens)| == |tokens|
    ensures (forall t :: t in tokens ==> Legible(t)) <==> forall i :: 0 <= i < |tokens| ==> Legible(tokens[i])
  {
  }

  /** A listing is accepted exactly when its cards are in order and list, for each bank of the
      rope, 1024 words whose checksum is the bank's number or its complement. */
  lemma ListingAcceptedExactly(cards: seq<Card>)
    ensures Listed(cards).Success? <==>
            && (forall k: nat :: k < |cards| ==> InOrder(cards, k))
            && forall b: nat :: b < 36 ==> Whole(cards, b)
  {
    hide ReadCards, Serialised, RopeOf, SumsToBank, Gathered, InOrder, Listed, Complete;
    ReadsExactly(cards, |cards|);
    ListedWhenComplete(cards);
    if ReadCards(cards, |cards|).Success? {
      CompleteWhenGathered(cards);
    } else if forall k: nat :: k < |cards| ==> InOrder(cards, k) {
      var b: nat :| b < 36 && !Within(cards, |cards|, b);
      assert !Whole(cards, b);
    }
  }

  lemma CompleteWhenGathered(cards: seq<Card>)
    requires ReadCards(cards, |cards|).Success?
    ensures Complete(ReadCards(cards, |cards|).value.banks) <==>
            forall b: nat :: b < 36 ==> Whole(cards, b)
  {
    hide ReadCards, SumsToBank, Gathered, BankAt;
    ReadingGathers(cards, |cards|);
    var banks := ReadCards(cards, |cards|).value.banks;
    if forall b: nat :: b < 36 ==> Whole(cards, b) {
      forall b: nat | b < 36
        ensures b in banks && banks[b] == Gathered(cards, |cards|, b)
      {
        assert Whole(cards, b);
      }
      forall b: nat | b < 36
        ensures |banks[b]| == 1024 && SumsToBank(banks[b], b)
      {
        assert Whole(cards, b);
      }
      assert Complete(banks);
    }
    if Complete(banks) {
      forall b: nat | b < 36
        ensures Whole(cards, b)
      {
        assert banks[b] == Gathered(cards, |cards|, b);
      }
    }
  }

  lemma ListedWhenComplete(cards: seq<Card>)
    ensures Listed(cards).Success? <==>
            ReadCards(cards, |cards|).Success? && Complete(ReadCards(cards, |cards|).value.banks)
  {
    hide ReadCards, Serialised, RopeOf, SumsToBank;
    var r := ReadCards(cards, |cards|);
    if r.Success? && AllBanks(r.value.banks) {
      NoTroubleExactly(r.value.banks, 0);
    }
  }

  /** The words sum, modulo the largest magnitude, to the bank's number or its negative. */
  predicate SumsModulo(words: seq<Word>, bank: nat) {
    Congruent(Total(words), bank) || Congruent(Total(words), 0 - bank)
  }

  /** The bytes of an accepted listing load with, in each bank, the words listed for it. */
  lemma AcceptedListingLoads(cards: seq<Card>, bank: nat)
    requires Listed(cards).Success? && bank < 36
    ensures Acceptable(Listed(cards).value, Yayul)
    ensures Loaded(Listed(cards).value, Yayul)[bank * 1024..bank * 1024 + 1024] == Gathered(cards, |cards|, bank)
    ensures SumsModulo(Gathered(cards, |cards|, bank), bank)
  {
    hide ReadCards, Serialised, Loaded, Gathered, SumsModulo, SumsToBank, Acceptable, RopeOf;
    ListedWhenComplete(cards);
    var banks := ReadCards(cards, |cards|).value.banks;
    NoTroubleExactly(banks, 0);
    LoadSerialised(RopeOf(banks));
    ReadingGathers(cards, |cards|);
    BankSlice(banks, bank);
    SumMeans(banks[bank], bank);
  }

  lemma BankSlice(banks: Banks, b: nat)
    requires Complete(banks) && b < 36
    ensures RopeOf(banks)[b * 1024..b * 1024 + 1024] == banks[b]
  {
    var slice := RopeOf(banks)[b * 1024..b * 1024 + 1024];
    forall i: nat | i < 1024
      ensures slice[i] == banks[b][i]
    {
      assert (b * 1024 + i) / 1024 == b && (b * 1024 + i) % 1024 == i;
    }
  }

  lemma SumMeans(words: seq<Word>, bank: nat)
    requires bank < 36 && SumsToBank(words, bank)
    ensures SumsModulo(words, bank)
  {
    hide Checksum, Total;
    ChecksumIsTotal(words);
    CongruentBack(Value(Checksum(words)), Total(words));
  }

  lemma CongruentBack(a: int, b: int)
    requires Congruent(a, b)
    ensures Congruent(b, a)
  {
    var m := (a - b) / MODULUS;
    assert b - a == MODULUS * -m;
  }
}
