/** Constant-product quoting, and why a cycle of such pools priced fairly can never show a profit. */
module ConstantProduct {
  import opened Machine

  function Quote(reserveIn: u64, reserveOut: u64, feeBps: u64, input: u64): Option<u64> {
    if reserveIn == 0 || reserveOut == 0 then None else
    var keep :- CheckedSub(10_000, feeBps);
    var afterFee :- CheckedMul(input, keep);
    var numerator :- CheckedMul(reserveOut, afterFee);
    var scaledReserve :- CheckedMul(reserveIn, 10_000);
    var denominator :- CheckedAdd(scaledReserve, afterFee);
    var output :- CheckedDiv(numerator, denominator);
    if output >= reserveOut then None else Some(output)
  }

  /** A fee only takes from the input, so the output is bounded as if the pool charged none. */
  lemma FeeOnlyLowers(rIn: nat, rOut: nat, x: nat, keep: nat, out: nat)
    requires keep <= 10_000 && out <= rOut
    requires out * (rIn * 10_000 + x * keep) <= rOut * (x * keep)
    ensures out * (rIn + x) <= rOut * x
  {
    var a, rest := x * keep, rOut - out;
    assert out * (rIn * 10_000) <= rest * a by {
      MulDistribute(out, rIn * 10_000, a);
      assert rest * a == rOut * a - out * a;
    }
    assert rest * a <= (rest * x) * 10_000 by {
      MulMono(keep, 10_000, x);
      MulMono(a, x * 10_000, rest);
      MulRegroup(rest, x, 10_000);
    }
    assert out * (rIn * 10_000) == (out * rIn) * 10_000 by { MulRegroup(out, rIn, 10_000); }
    assert rest * x == rOut * x - out * x;
    MulDistribute(out, rIn, x);
  }

  /** The output stays under the reserve and is paid at no better than the curve through the reserves:
      the product of reserves never falls. */
  lemma KeepsProduct(reserveIn: u64, reserveOut: u64, feeBps: u64, input: u64)
    ensures match Quote(reserveIn, reserveOut, feeBps, input)
            case None => true
            case Some(out) =>
              && out < reserveOut
              && (reserveIn + input) * (reserveOut - out) >= reserveIn * reserveOut
              && out * (reserveIn + input) <= reserveOut * input
  {
    var quote := Quote(reserveIn, reserveOut, feeBps, input);
    if quote.Some? {
      var keep, out := 10_000 - feeBps, quote.value;
      QuotientBounds(reserveOut * (input * keep), reserveIn * 10_000 + input * keep);
      FeeOnlyLowers(reserveIn, reserveOut, input, keep, out);
      var sum := reserveIn + input;
      assert sum * (reserveOut - out) == sum * reserveOut - out * sum;
      MulDistribute(reserveOut, reserveIn, input);
    }
  }

  /** The quote is the best the curve allows: on the input after fee it is the largest output that does not let the
      product of reserves fall (everything scaled by the fee's 10000). */
  lemma QuoteIsGreatest(reserveIn: u64, reserveOut: u64, feeBps: u64, input: u64)
    ensures match Quote(reserveIn, reserveOut, feeBps, input)
            case None => true
            case Some(out) =>
              var before, after := reserveIn * 10_000, reserveIn * 10_000 + input * (10_000 - feeBps);
              after * (reserveOut - (out + 1)) < before * reserveOut <= after * (reserveOut - out)
  {
    var quote := Quote(reserveIn, reserveOut, feeBps, input);
    if quote.Some? {
      var a, out := input * (10_000 - feeBps), quote.value;
      var after := reserveIn * 10_000 + a;
      QuotientBounds(reserveOut * a, after);
      MulDistribute(reserveOut, reserveIn * 10_000, a);
      assert after * (reserveOut - out) == after * reserveOut - out * after;
      assert after * (reserveOut - (out + 1)) == after * reserveOut - out * after - after;
    }
  }

  /** The quote is refused only for an empty reserve, a fee over 100% or a numerator beyond 128 bits; the final
      comparison with the reserve never refuses anything. */
  lemma RefusedExactlyWhen(reserveIn: u64, reserveOut: u64, feeBps: u64, input: u64)
    ensures Quote(reserveIn, reserveOut, feeBps, input).None? <==>
              || reserveIn == 0 || reserveOut == 0 || feeBps > 10_000
              || reserveOut * (input * (10_000 - feeBps)) > U128_MAX
  {
    if reserveIn > 0 && reserveOut > 0 && feeBps <= 10_000 {
      var keep := 10_000 - feeBps;
      var a := input * keep;
      assert 0 <= a <= U64_MAX * 10_000 by {
        MulMono(keep, 10_000, input);
        MulMono(0, keep, input);
      }
      assert reserveOut * a >= 0 by { MulMono(0, a, reserveOut); }
      if reserveOut * a <= U128_MAX {
        MulDistribute(reserveOut, reserveIn * 10_000, a);
        MulStrict(0, reserveIn * 10_000, reserveOut);
        QuotientBelow(reserveOut * a, reserveIn * 10_000 + a, reserveOut);
      }
    }
  }

  lemma QuoteMonotone(reserveIn: u64, reserveOut: u64, feeBps: u64, x: u64, y: u64)
    requires x <= y
    ensures var small, large := Quote(reserveIn, reserveOut, feeBps, x), Quote(reserveIn, reserveOut, feeBps, y);
            small.Some? && large.Some? ==> small.value <= large.value
  {
    if Quote(reserveIn, reserveOut, feeBps, x).None? || Quote(reserveIn, reserveOut, feeBps, y).None? { return; }
    var keep, s := 10_000 - feeBps, reserveIn * 10_000;
    var a, b := x * keep, y * keep;
    assert a <= b by { MulMono(x, y, keep); }
    var out := Quote(reserveIn, reserveOut, feeBps, x).value;
    QuotientBounds(reserveOut * a, s + a);
    // out * (s + b) = out * (s + a) + out * (b - a) <= reserveOut * a + reserveOut * (b - a)
    MulMono(out, reserveOut, b - a);
    MulDistribute(out, s + a, b - a);
    MulDistribute(reserveOut, a, b - a);
    QuotientAtLeast(reserveOut * b, s + b, out);
  }

  /** Swapping there and straight back, at the reserves the first swap leaves, never gains. */
  lemma RoundTripLoses(reserveIn: u64, reserveOut: u64, feeBps: u64, input: u64)
    requires reserveIn + input <= U64_MAX
    ensures match Quote(reserveIn, reserveOut, feeBps, input)
            case None => true
            case Some(out) =>
              match Quote(reserveOut - out, reserveIn + input, feeBps, out)
              case None => true
              case Some(back) => back <= input
  {
    hide Quote;
    KeepsProduct(reserveIn, reserveOut, feeBps, input);
    var quote := Quote(reserveIn, reserveOut, feeBps, input);
    if quote.Some? {
      var out := quote.value;
      var returned := Quote(reserveOut - out, reserveIn + input, feeBps, out);
      if returned.Some? {
        KeepsProduct(reserveOut - out, reserveIn + input, feeBps, out);
        assert (reserveOut - out) + out == reserveOut;
        CancelLe(returned.value, input, reserveOut);
      }
    }
  }

  // ---- Cycles ----

  /** One pool of a route, seen in the direction of the swap. */
  datatype Leg = Leg(reserveIn: u64, reserveOut: u64, feeBps: u64)

  /** Output of the whole route, each output feeding the next pool; no route goes on from a zero output. */
  function Chain(legs: seq<Leg>, input: u64): Option<u64> {
    if legs == [] then Some(input) else
    var out :- Quote(legs[0].reserveIn, legs[0].reserveOut, legs[0].feeBps, input);
    if out == 0 then None else Chain(legs[1..], out)
  }

  function ProductIn(legs: seq<Leg>): nat {
    if legs == [] then 1 else legs[0].reserveIn * ProductIn(legs[1..])
  }

  function ProductOut(legs: seq<Leg>): nat {
    if legs == [] then 1 else legs[0].reserveOut * ProductOut(legs[1..])
  }

  lemma LinkBound(y: nat, pin: nat, pout: nat, out: nat, rIn: nat, rOut: nat, x: nat)
    requires y * pin <= out * pout && out * rIn < rOut * x && 0 < pin && 0 < rIn && 0 < y
    ensures y * (rIn * pin) < x * (rOut * pout)
  {
    MulMono(y * pin, out * pout, rIn);
    MulRegroup(y, pin, rIn);
    MulRegroup(out, pout, rIn);
    assert pout > 0 by {
      if pout == 0 { MulStrict(0, y, pin); }
    }
    MulStrict(out * rIn, rOut * x, pout);
    MulRegroup(rOut, x, pout);
    assert x * (rOut * pout) == (rOut * pout) * x;
  }

  /** The route pays strictly less than the product of its spot prices. */
  lemma {:induction false} ChainBound(legs: seq<Leg>, input: u64)
    requires Chain(legs, input).Some? && input > 0
    ensures ProductIn(legs) > 0
    ensures var y := Chain(legs, input).value;
            if legs == [] then y == input else y * ProductIn(legs) < input * ProductOut(legs)
    ensures Chain(legs, input).value > 0
  {
    if legs == [] {
    } else {
      var leg := legs[0];
      var out := Quote(leg.reserveIn, leg.reserveOut, leg.feeBps, input).value;
      KeepsProduct(leg.reserveIn, leg.reserveOut, leg.feeBps, input);
      ChainBound(legs[1..], out);
      var y := Chain(legs[1..], out).value;
      var pin, pout := ProductIn(legs[1..]), ProductOut(legs[1..]);
      assert out * leg.reserveIn < leg.reserveOut * input by {
        MulDistribute(out, leg.reserveIn, input);
        MulStrict(0, out, input);
      }
      LinkBound(y, pin, pout, out, leg.reserveIn, leg.reserveOut, input);
      MulStrict(0, pin, leg.reserveIn);
    }
  }

  /** No false arbitrage: around any cycle whose spot prices multiply to at most 1, every input comes back smaller. */
  lemma NoFalseArbitrage(legs: seq<Leg>, input: u64)
    requires legs != [] && input > 0 && ProductOut(legs) <= ProductIn(legs)
    ensures match Chain(legs, input)
            case None => true
            case Some(back) => back < input
  {
    if Chain(legs, input).Some? {
      ChainBound(legs, input);
      MulMono(ProductOut(legs), ProductIn(legs), input);
      CancelLt(Chain(legs, input).value, input, ProductIn(legs));
    }
  }
}
