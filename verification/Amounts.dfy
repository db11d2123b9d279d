/** Amounts of money and their checked addition, on unbounded fields and on the 32-bit fields of
    the messages, with exactly when the two agree. */
module Amounts {
  import opened Options

  const MICROS: int := 1_000_000

  datatype Amount = Amount(whole: int, fractional: int, code: int)

  const ZERO := Amount(0, 0, 0)

  /** Division and remainder that truncate towards zero. */
  function TruncDiv(a: int, b: int): int
    requires b > 0
  {
    if a >= 0 then a / b else -(-a / b)
  }

  function TruncMod(a: int, b: int): int
    requires b > 0
  {
    if a >= 0 then a % b else -(-a % b)
  }

  /** None on a currency mismatch. */
  function Add(a: Amount, b: Amount): Option<Amount> {
    if a.code != b.code then None else
    var total := a.fractional + b.fractional;
    Some(Amount(a.whole + b.whole + TruncDiv(total, MICROS), TruncMod(total, MICROS), a.code))
  }

  function Value(a: Amount): int {
    a.whole * MICROS + a.fractional
  }

  lemma AddIsExact(a: Amount, b: Amount)
    ensures Add(a, b).Some? <==> a.code == b.code
    ensures Add(a, b).Some? ==> Value(Add(a, b).value) == Value(a) + Value(b) && Add(a, b).value.code == a.code
    ensures Add(a, b).Some? ==>
              var f := Add(a, b).value.fractional;
              -MICROS < f < MICROS
              && (f > 0 ==> a.fractional + b.fractional > 0) && (f < 0 ==> a.fractional + b.fractional < 0)
  {
  }

  datatype Token = Token(value: Amount, recipient: nat)

  /** The running total that starts from the default amount, whose currency is TEST_TOKEN (0). */
  function Total(tokens: seq<Token>): Option<Amount> {
    if tokens == [] then Some(ZERO) else
    var t := Total(tokens[..|tokens| - 1]);
    if t.None? then None else Add(t.value, tokens[|tokens| - 1].value)
  }

  function SumOfValues(tokens: seq<Token>): int {
    if tokens == [] then 0 else SumOfValues(tokens[..|tokens| - 1]) + Value(tokens[|tokens| - 1].value)
  }

  /** A total exists exactly when every token is in the default currency, and it is exact. */
  lemma {:induction false} TotalIsExact(tokens: seq<Token>)
    ensures Total(tokens).Some? <==> forall i :: 0 <= i < |tokens| ==> tokens[i].value.code == ZERO.code
    ensures Total(tokens).Some? ==>
              Value(Total(tokens).value) == SumOfValues(tokens) && Total(tokens).value.code == ZERO.code
  {
    if tokens != [] {
      var init := tokens[..|tokens| - 1];
      TotalIsExact(init);
      if Total(init).Some? {
        AddIsExact(Total(init).value, tokens[|tokens| - 1].value);
      } else {
        assert exists i :: 0 <= i < |init| && init[i].value.code != ZERO.code;
        assert forall i :: 0 <= i < |init| ==> tokens[i] == init[i];
      }
    }
  }

  lemma {:induction false} TotalPrefix(tokens: seq<Token>, n: nat)
    requires n <= |tokens| && Total(tokens).Some?
    ensures Total(tokens[..n]).Some?
  {
    if n < |tokens| {
      var init := tokens[..|tokens| - 1];
      TotalPrefix(init, n);
      assert init[..n] == tokens[..n];
    } else {
      assert tokens[..n] == tokens;
    }
  }

  lemma TotalStep(tokens: seq<Token>, n: nat)
    requires n < |tokens|
    ensures var t := Total(tokens[..n]);
            Total(tokens[..n + 1]) == if t.None? then None else Add(t.value, tokens[n].value)
  {
    assert tokens[..n + 1][..n] == tokens[..n];
  }

  // ----- 32-bit fields -----

  const TWO_32: int := 0x1_0000_0000
  const TWO_31: int := 0x8000_0000

  predicate Int32(v: int) { -TWO_31 <= v < TWO_31 }

  function Wrap32(v: int): (w: int)
    ensures Int32(w)
  {
    (v + TWO_31) % TWO_32 - TWO_31
  }

  lemma WrapShift(v: int) returns (k: int)
    ensures Wrap32(v) == v + k * TWO_32
    ensures Int32(v) <==> k == 0
  {
    k := -((v + TWO_31) / TWO_32);
  }

  /** Addition as compiled without overflow checks: every sum wraps around. */
  function Add32(a: Amount, b: Amount): Option<Amount> {
    if a.code != b.code then None else
    var total := Wrap32(a.fractional + b.fractional);
    Some(Amount(Wrap32(Wrap32(a.whole + b.whole) + TruncDiv(total, MICROS)), TruncMod(total, MICROS), a.code))
  }

  /** No final sum leaves the 32-bit range. */
  predicate NoOverflow(a: Amount, b: Amount) {
    var total := a.fractional + b.fractional;
    Int32(total) && Int32(a.whole + b.whole + TruncDiv(total, MICROS))
  }

  /** What wrapping adds to the value: i and j count the wraps of fraction and whole. */
  lemma WrappedValue(a: Amount, b: Amount) returns (i: int, j: int)
    requires a.code == b.code && Int32(a.fractional) && Int32(b.fractional)
    ensures -1 <= i <= 1 && (Int32(a.fractional + b.fractional) <==> i == 0)
    ensures Add32(a, b).value.whole
         == a.whole + b.whole + TruncDiv(Wrap32(a.fractional + b.fractional), MICROS) + j * TWO_32
    ensures Value(Add32(a, b).value) == Value(a) + Value(b) + (i + j * MICROS) * TWO_32
  {
    var t := Wrap32(a.fractional + b.fractional);
    var k := WrapShift(a.whole + b.whole);
    var l := WrapShift(Wrap32(a.whole + b.whole) + TruncDiv(t, MICROS));
    i := WrapShift(a.fractional + b.fractional);
    j := k + l;
    TruncParts(t);
  }

  /** The wrapped sum is exact, and then the unbounded one, if and only if nothing overflows. */
  lemma Add32ExactIff(a: Amount, b: Amount)
    requires a.code == b.code && Int32(a.fractional) && Int32(b.fractional)
    ensures Value(Add32(a, b).value) == Value(a) + Value(b) <==> NoOverflow(a, b)
    ensures NoOverflow(a, b) ==> Add32(a, b) == Add(a, b)
  {
    var i, j := WrappedValue(a, b);
    Balance(i, j);
    var w := Add32(a, b).value.whole;
    if i == 0 { InRange(a.whole + b.whole + TruncDiv(a.fractional + b.fractional, MICROS), w, j); }
  }

  lemma InRange(v: int, w: int, j: int)
    requires Int32(w) && w == v + j * TWO_32
    ensures Int32(v) <==> j == 0
  {
  }

  lemma TruncParts(t: int)
    ensures TruncDiv(t, MICROS) * MICROS + TruncMod(t, MICROS) == t
  {
  }

  lemma Balance(i: int, j: int)
    requires -1 <= i <= 1
    ensures (i + j * MICROS) * TWO_32 == 0 <==> i == 0 && j == 0
  {
  }

  function Total32(tokens: seq<Token>): Option<Amount> {
    if tokens == [] then Some(ZERO) else
    var t := Total32(tokens[..|tokens| - 1]);
    if t.None? then None else Add32(t.value, tokens[|tokens| - 1].value)
  }

  /** A fraction below one unit and nothing negative, as the message format prescribes. */
  predicate Normal(a: Amount) {
    0 <= a.whole < TWO_31 && 0 <= a.fractional < MICROS
  }

  predicate AllNormal(tokens: seq<Token>) {
    forall i :: 0 <= i < |tokens| ==> Normal(tokens[i].value)
  }

  lemma {:induction false} TotalNormal(tokens: seq<Token>)
    requires AllNormal(tokens) && Total(tokens).Some?
    ensures var t := Total(tokens).value; t.whole >= 0 && 0 <= t.fractional < MICROS
    ensures Value(Total(tokens).value) == SumOfValues(tokens) >= 0
  {
    TotalIsExact(tokens);
    if tokens != [] {
      TotalPrefix(tokens, |tokens| - 1);
      TotalNormal(tokens[..|tokens| - 1]);
    }
  }

  /** On prescribed amounts the wrapped running total is the unbounded one exactly as long as the
      tokens are worth less than 2^31 units. */
  lemma {:induction false} Total32Iff(tokens: seq<Token>)
    requires AllNormal(tokens) && Total(tokens).Some?
    ensures Total32(tokens) == Total(tokens) <==> SumOfValues(tokens) < TWO_31 * MICROS
  {
    TotalNormal(tokens);
    if tokens != [] {
      var init, last := tokens[..|tokens| - 1], tokens[|tokens| - 1].value;
      TotalPrefix(tokens, |tokens| - 1);
      TotalNormal(init);
      Total32Iff(init);
      TotalIsExact(tokens);
      if SumOfValues(tokens) < TWO_31 * MICROS {
        Add32ExactIff(Total(init).value, last);
      }
    }
  }

  predicate AllTo(tokens: seq<Token>, recipient: nat) {
    forall t :: t in tokens ==> t.recipient == recipient
  }

  /** The accumulation loop of transfer_impl, once the tokens have verified: every token is in
      the same currency and last went to our ticket, and the total is the amount asked for. */
  method AcceptsTransfer(tokens: seq<Token>, ticket: nat, amount: Amount) returns (accepted: bool)
    ensures accepted <==> AllTo(tokens, ticket) && Total(tokens) == Some(amount)
  {
    var total := ZERO;
    for i := 0 to |tokens|
      invariant Total(tokens[..i]) == Some(total)
      invariant AllTo(tokens[..i], ticket)
    {
      TotalStep(tokens, i);
      var sum := Add(total, tokens[i].value);
      if sum.None? {
        if Total(tokens).Some? { TotalPrefix(tokens, i + 1); }
        return false;
      }
      total := sum.value;
      if tokens[i].recipient != ticket {
        return false;
      }
      assert tokens[..i + 1] == tokens[..i] + [tokens[i]];
    }
    assert tokens[..|tokens|] == tokens;
    return total == amount;
  }

  function Flatten(methods: seq<seq<Token>>): seq<Token> {
    if methods == [] then [] else Flatten(methods[..|methods| - 1]) + methods[|methods| - 1]
  }

  /** The inner loop of transact_impl: adds one method's tokens to the total of those before. */
  method Accumulate(ghost before: seq<Token>, start: Amount, tokens: seq<Token>) returns (total: Option<Amount>)
    requires Total(before) == Some(start)
    ensures total == Total(before + tokens)
  {
    var sum := start;
    assert before + tokens[..0] == before;
    for j := 0 to |tokens|
      invariant Total(before + tokens[..j]) == Some(sum)
    {
      ghost var next := before + tokens[..j + 1];
      assert next[..|next| - 1] == before + tokens[..j] && next[|next| - 1] == tokens[j];
      var added := Add(sum, tokens[j].value);
      if added.None? {
        assert (before + tokens)[..|next|] == next;
        if Total(before + tokens).Some? { TotalPrefix(before + tokens, |next|); }
        return None;
      }
      sum := added.value;
    }
    assert tokens[..|tokens|] == tokens;
    return Some(sum);
  }

  /** The nested loops of transact_impl: verdicts[i] is what verifying method i's tokens yields. */
  method AcceptsProposal(methods: seq<seq<Token>>, verdicts: seq<bool>, amount: Amount) returns (accepted: bool)
    requires |verdicts| == |methods|
    ensures accepted <==> (forall i :: 0 <= i < |verdicts| ==> verdicts[i]) && Total(Flatten(methods)) == Some(amount)
  {
    var total := ZERO;
    for i := 0 to |methods|
      invariant forall j :: 0 <= j < i ==> verdicts[j]
      invariant Total(Flatten(methods[..i])) == Some(total)
    {
      if !verdicts[i] { return false; }
      var sum := Accumulate(Flatten(methods[..i]), total, methods[i]);
      assert methods[..i + 1][..i] == methods[..i];
      if sum.None? {
        assert methods[i][..|methods[i]|] == methods[i];
        FlattenPrefix(methods, i, |methods[i]|);
        return false;
      }
      total := sum.value;
    }
    assert methods[..|methods|] == methods;
    return total == amount;
  }

  /** A total of the whole proposal needs totals of all its beginnings. */
  lemma {:induction false} FlattenPrefix(methods: seq<seq<Token>>, i: nat, j: nat)
    requires i < |methods| && j <= |methods[i]|
    ensures Total(Flatten(methods)).Some? ==> Total(Flatten(methods[..i]) + methods[i][..j]).Some?
  {
    if Total(Flatten(methods)).Some? {
      var last := methods[|methods| - 1];
      var init := methods[..|methods| - 1];
      var all := Flatten(methods);
      if i < |methods| - 1 {
        TotalPrefix(all, |Flatten(init)|);
        assert all[..|Flatten(init)|] == Flatten(init);
        FlattenPrefix(init, i, j);
        assert init[..i] == methods[..i];
      } else {
        TotalPrefix(all, |Flatten(init)| + j);
        assert all[..|Flatten(init)| + j] == Flatten(init) + last[..j];
      }
    }
  }
}
