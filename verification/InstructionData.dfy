/** The instruction data each swap builder lays out, and the 8-byte amount the on-chain program overwrites in it. */
module InstructionData {
  import opened Machine

  type byte = b: int | 0 <= b < 256

  /** The `k` low bytes of `n`, least significant first. */
  function LittleEndian(n: nat, k: nat): (s: seq<byte>)
    ensures |s| == k
  {
    if k == 0 then [] else [n % 256] + LittleEndian(n / 256, k - 1)
  }

  function FromLittleEndian(s: seq<byte>): nat {
    if s == [] then 0 else s[0] + 256 * FromLittleEndian(s[1..])
  }

  function Power256(k: nat): nat {
    if k == 0 then 1 else 256 * Power256(k - 1)
  }

  lemma {:induction false} LittleEndianRoundTrip(n: nat, k: nat)
    requires n < Power256(k)
    ensures FromLittleEndian(LittleEndian(n, k)) == n
  {
    if k == 0 {
    } else {
      LittleEndianRoundTrip(n / 256, k - 1);
      assert LittleEndian(n, k)[1..] == LittleEndian(n / 256, k - 1);
    }
  }

  function Le64(n: u64): (s: seq<byte>)
    ensures |s| == 8
  {
    LittleEndian(n, 8)
  }

  lemma Le64RoundTrip(n: u64)
    ensures FromLittleEndian(Le64(n)) == n
  {
    assert Power256(8) == U64_MAX + 1 by { assert Power256(4) == 0x1_0000_0000; }
    LittleEndianRoundTrip(n, 8);
  }

  /** `ix_data[offset..offset + 8] = n` when it fits, and nothing at all otherwise. */
  function Rewrite(data: seq<byte>, offset: nat, n: u64): (r: seq<byte>)
    ensures |r| == |data|
  {
    if offset + 8 <= |data| then data[..offset] + Le64(n) + data[offset + 8..] else data
  }

  /** What the called program reads at the offset after the rewrite is the number written. */
  lemma RewriteReadsBack(data: seq<byte>, offset: nat, n: u64)
    requires offset + 8 <= |data|
    ensures FromLittleEndian(Rewrite(data, offset, n)[offset..offset + 8]) == n
    ensures forall i :: 0 <= i < |data| && !(offset <= i < offset + 8) ==> Rewrite(data, offset, n)[i] == data[i]
  {
    Le64RoundTrip(n);
    assert Rewrite(data, offset, n)[offset..offset + 8] == Le64(n);
  }

  // ---- The layouts ----

  /** The swap instructions with what their data carries besides the two amounts. */
  datatype Layout =
    | RaydiumAmm
    | RaydiumCp
    | RaydiumClmm
    | Orca(aToB: bool, priceLimit: u128)
    | Dlmm
    | DammV2
    | PumpSell
    | PumpBuy
    | Sanctum(srcAccounts: byte, dstAccounts: byte, srcIndex: nat, dstIndex: nat)
    | Manifest(isBaseIn: bool)
    | Phoenix(isAsk: bool)

  const SWAP_V2: seq<byte> := [0x2b, 0x04, 0xed, 0x0b, 0x1a, 0xc9, 0x1e, 0x62]
  const SWAP_BASE_IN: seq<byte> := [0x8f, 0xbe, 0x5a, 0xda, 0xc4, 0x1e, 0x33, 0xde]
  const METEORA_SWAP: seq<byte> := [0x41, 0x4b, 0x3f, 0x4c, 0xeb, 0x5b, 0x5b, 0x88]
  const PUMP_SELL: seq<byte> := [51, 230, 133, 164, 1, 127, 131, 173]
  const PUMP_BUY: seq<byte> := [102, 6, 61, 18, 1, 218, 235, 234]

  function Flag(b: bool): byte {
    if b then 1 else 0
  }

  function Data(l: Layout, amountIn: u64, minOut: u64): seq<byte> {
    var inOut := Le64(amountIn) + Le64(minOut);
    match l
    case RaydiumAmm => [16] + inOut
    case RaydiumCp => SWAP_BASE_IN + inOut
    case RaydiumClmm => SWAP_V2 + inOut + LittleEndian(0, 16) + [1]
    case Orca(aToB, limit) => SWAP_V2 + inOut + LittleEndian(limit, 16) + [1, Flag(aToB), 0]
    case Dlmm => METEORA_SWAP + inOut + LittleEndian(0, 4)
    case DammV2 => METEORA_SWAP + inOut + [0]
    case PumpSell => PUMP_SELL + inOut
    case PumpBuy => PUMP_BUY + Le64(minOut) + Le64(amountIn) + [0]
    case Sanctum(s, d, i, j) => [1, s, d] + LittleEndian(i, 4) + LittleEndian(j, 4) + Le64(minOut) + Le64(amountIn)
    case Manifest(isBaseIn) => [4] + inOut + [Flag(isBaseIn), 1]
    case Phoenix(isAsk) =>
      [0, 1, Flag(isAsk)] + Le64(0) + Le64(amountIn) + Le64(0) + Le64(minOut) + Le64(0) + [0, 0] + LittleEndian(0, 16) + [0]
  }

  /** Where the client tells the on-chain program to write the amount. */
  function AmountOffset(l: Layout): byte {
    if l.RaydiumAmm? then 1 else 8
  }

  /** The layouts that do keep `amount_in` there. */
  predicate AmountIsAtOffset(l: Layout) {
    l.RaydiumAmm? || l.RaydiumCp? || l.RaydiumClmm? || l.Orca? || l.Dlmm? || l.DammV2? || l.PumpSell?
  }

  // ---- Where the exchanges read the two amounts ----

  function AmountField(l: Layout): nat {
    match l
    case RaydiumAmm => 1
    case Manifest(_) => 1
    case PumpBuy => 16
    case Phoenix(_) => 11
    case Sanctum(_, _, _, _) => 19
    case _ => 8
  }

  function MinimumField(l: Layout): nat {
    match l
    case RaydiumAmm => 9
    case Manifest(_) => 9
    case PumpBuy => 8
    case Phoenix(_) => 27
    case Sanctum(_, _, _, _) => 11
    case _ => 16
  }

  /** An exchange given this data swaps `amountIn` and refuses to pay less than `minOut`. */
  ghost predicate Asks(l: Layout, data: seq<byte>, amountIn: u64, minOut: u64) {
    && AmountField(l) + 8 <= |data| && MinimumField(l) + 8 <= |data|
    && FromLittleEndian(data[AmountField(l)..AmountField(l) + 8]) == amountIn
    && FromLittleEndian(data[MinimumField(l)..MinimumField(l) + 8]) == minOut
  }

  lemma ReadMiddle(head: seq<byte>, n: u64, tail: seq<byte>)
    ensures var data := head + Le64(n) + tail;
            |head| + 8 <= |data| && FromLittleEndian(data[|head|..|head| + 8]) == n
  {
    hide Le64;
    Le64RoundTrip(n);
    assert (head + Le64(n) + tail)[|head|..|head| + 8] == Le64(n);
  }

  /** The head and the tail of the data around two amounts with `between` between them. */
  lemma ReadBoth(data: seq<byte>, head: seq<byte>, first: u64, between: seq<byte>, second: u64, tail: seq<byte>)
    requires data == head + Le64(first) + between + Le64(second) + tail
    ensures var at := |head| + 8 + |between|;
            && at + 8 <= |data|
            && FromLittleEndian(data[|head|..|head| + 8]) == first && FromLittleEndian(data[at..at + 8]) == second
  {
    hide Le64, FromLittleEndian;
    ReadMiddle(head, first, between + Le64(second) + tail);
    ReadMiddle(head + Le64(first) + between, second, tail);
    assert data == head + Le64(first) + (between + Le64(second) + tail);
  }

  // ---- What else the data says ----

  /** The length of the data, the bytes that name the instruction, and the bytes that tell the exchange which way to
      swap. */
  ghost predicate IsMarked(l: Layout, data: seq<byte>) {
    match l
    case RaydiumAmm => |data| == 17 && data[0] == 16
    case RaydiumCp => |data| == 24 && data[..8] == [0x8f, 0xbe, 0x5a, 0xda, 0xc4, 0x1e, 0x33, 0xde]
    case RaydiumClmm =>
      && |data| == 41 && data[..8] == [0x2b, 0x04, 0xed, 0x0b, 0x1a, 0xc9, 0x1e, 0x62]
      && (forall i :: 24 <= i < 40 ==> data[i] == 0) && data[40] == 1
    case Orca(aToB, limit) =>
      && |data| == 43 && data[..8] == [0x2b, 0x04, 0xed, 0x0b, 0x1a, 0xc9, 0x1e, 0x62]
      && FromLittleEndian(data[24..40]) == limit && data[40] == 1 && data[42] == 0
      && (data[41] == 1 <==> aToB) && (data[41] == 0 <==> !aToB)
    case Dlmm => |data| == 28 && data[..8] == [0x41, 0x4b, 0x3f, 0x4c, 0xeb, 0x5b, 0x5b, 0x88]
    case DammV2 => |data| == 25 && data[..8] == [0x41, 0x4b, 0x3f, 0x4c, 0xeb, 0x5b, 0x5b, 0x88] && data[24] == 0
    case PumpSell => |data| == 24 && data[..8] == [51, 230, 133, 164, 1, 127, 131, 173]
    case PumpBuy => |data| == 25 && data[..8] == [102, 6, 61, 18, 1, 218, 235, 234] && data[24] == 0
    case Sanctum(s, d, i, j) =>
      && |data| == 27 && data[0] == 1 && data[1] == s && data[2] == d
      && (i < 0x1_0000_0000 ==> FromLittleEndian(data[3..7]) == i) && (j < 0x1_0000_0000 ==> FromLittleEndian(data[7..11]) == j)
    case Manifest(isBaseIn) => |data| == 19 && data[0] == 4 && (data[17] == 1 <==> isBaseIn) && (data[17] == 0 <==> !isBaseIn) && data[18] == 1
    case Phoenix(isAsk) => |data| == 62 && data[0] == 0 && data[1] == 1 && (data[2] == 1 <==> isAsk) && (data[2] == 0 <==> !isAsk)
  }

  lemma ZeroBytes(k: nat)
    ensures forall i :: 0 <= i < k ==> LittleEndian(0, k)[i] == 0
  {
    if k > 0 { ZeroBytes(k - 1); }
  }

  lemma SixteenBytes(n: u128)
    ensures FromLittleEndian(LittleEndian(n, 16)) == n
  {
    assert Power256(16) == U128_MAX + 1 by {
      assert Power256(4) == 0x1_0000_0000;
      assert Power256(8) == 0x1_0000_0000_0000_0000;
      assert Power256(12) == 0x1_0000_0000_0000_0000_0000_0000;
    }
    LittleEndianRoundTrip(n, 16);
  }

  lemma FourBytes(n: nat)
    requires n < 0x1_0000_0000
    ensures FromLittleEndian(LittleEndian(n, 4)) == n
  {
    assert Power256(4) == 0x1_0000_0000;
    LittleEndianRoundTrip(n, 4);
  }

  lemma OrcaIsMarked(aToB: bool, limit: u128, amountIn: u64, minOut: u64)
    ensures IsMarked(Orca(aToB, limit), Data(Orca(aToB, limit), amountIn, minOut))
  {
    hide Le64, LittleEndian, FromLittleEndian;
    SixteenBytes(limit);
    var data := Data(Orca(aToB, limit), amountIn, minOut);
    assert data[24..40] == LittleEndian(limit, 16);
  }

  lemma RaydiumClmmIsMarked(amountIn: u64, minOut: u64)
    ensures IsMarked(RaydiumClmm, Data(RaydiumClmm, amountIn, minOut))
  {
    hide Le64, LittleEndian, FromLittleEndian;
    ZeroBytes(16);
    var data := Data(RaydiumClmm, amountIn, minOut);
    assert data[24..40] == LittleEndian(0, 16);
    assert forall i :: 24 <= i < 40 ==> data[i] == data[24..40][i - 24];
  }

  lemma SanctumIsMarked(s: byte, d: byte, i: nat, j: nat, amountIn: u64, minOut: u64)
    ensures IsMarked(Sanctum(s, d, i, j), Data(Sanctum(s, d, i, j), amountIn, minOut))
  {
    hide Le64, LittleEndian, FromLittleEndian;
    if i < 0x1_0000_0000 { FourBytes(i); }
    if j < 0x1_0000_0000 { FourBytes(j); }
    var data := Data(Sanctum(s, d, i, j), amountIn, minOut);
    assert data[3..7] == LittleEndian(i, 4) && data[7..11] == LittleEndian(j, 4);
  }

  /** Every builder marks its data with its instruction, and with the direction it was given. */
  lemma DataIsMarked(l: Layout, amountIn: u64, minOut: u64)
    ensures IsMarked(l, Data(l, amountIn, minOut))
  {
    hide Le64, LittleEndian, FromLittleEndian;
    match l
    case Orca(aToB, limit) => OrcaIsMarked(aToB, limit, amountIn, minOut);
    case RaydiumClmm => RaydiumClmmIsMarked(amountIn, minOut);
    case Sanctum(s, d, i, j) => SanctumIsMarked(s, d, i, j, amountIn, minOut);
    case _ =>
  }

  /** Overwriting the amount gives the data the builder would produce for the new amount. */
  ghost predicate RewriteCommutes(l: Layout) {
    forall amount: u64, n: u64, minOut: u64 :: Rewrite(Data(l, amount, minOut), AmountOffset(l), n) == Data(l, n, minOut)
  }

  lemma RewriteMiddle(head: seq<byte>, amount: u64, tail: seq<byte>, n: u64)
    ensures Rewrite(head + Le64(amount) + tail, |head|, n) == head + Le64(n) + tail
  {
    var data := head + Le64(amount) + tail;
    assert data[..|head|] == head;
    assert data[|head| + 8..] == tail;
  }

  /** What follows the amount in the layouts that keep it at the offset. */
  function Tail(l: Layout, minOut: u64): seq<byte>
    requires AmountIsAtOffset(l)
  {
    Le64(minOut) +
    match l
    case RaydiumClmm => LittleEndian(0, 16) + [1]
    case Orca(aToB, limit) => LittleEndian(limit, 16) + [1, Flag(aToB), 0]
    case Dlmm => LittleEndian(0, 4)
    case DammV2 => [0]
    case _ => []
  }

  function Head(l: Layout): seq<byte>
    requires AmountIsAtOffset(l)
  {
    match l
    case RaydiumAmm => [16]
    case RaydiumCp => SWAP_BASE_IN
    case RaydiumClmm => SWAP_V2
    case Orca(_, _) => SWAP_V2
    case PumpSell => PUMP_SELL
    case _ => METEORA_SWAP
  }

  lemma DataAroundAmount(l: Layout, amount: u64, minOut: u64)
    requires AmountIsAtOffset(l)
    ensures |Head(l)| == AmountOffset(l)
    ensures Data(l, amount, minOut) == Head(l) + Le64(amount) + Tail(l, minOut)
  {
    hide Le64, LittleEndian;
  }

  lemma AtOffsetAsks(l: Layout, amountIn: u64, minOut: u64)
    requires AmountIsAtOffset(l)
    ensures Asks(l, Data(l, amountIn, minOut), amountIn, minOut)
  {
    hide Le64, LittleEndian, FromLittleEndian, Data;
    DataAroundAmount(l, amountIn, minOut);
    var tail := Tail(l, minOut);
    assert tail == Le64(minOut) + tail[8..];
    ReadBoth(Data(l, amountIn, minOut), Head(l), amountIn, [], minOut, tail[8..]);
  }

  lemma PumpBuyAsks(amountIn: u64, minOut: u64)
    ensures Asks(PumpBuy, Data(PumpBuy, amountIn, minOut), amountIn, minOut)
  {
    hide Le64, LittleEndian, FromLittleEndian;
    ReadBoth(Data(PumpBuy, amountIn, minOut), PUMP_BUY, minOut, [], amountIn, [0]);
  }

  lemma SanctumAsks(s: byte, d: byte, i: nat, j: nat, amountIn: u64, minOut: u64)
    ensures Asks(Sanctum(s, d, i, j), Data(Sanctum(s, d, i, j), amountIn, minOut), amountIn, minOut)
  {
    hide Le64, LittleEndian, FromLittleEndian;
    var head := [1, s, d] + LittleEndian(i, 4) + LittleEndian(j, 4);
    ReadBoth(Data(Sanctum(s, d, i, j), amountIn, minOut), head, minOut, [], amountIn, []);
  }

  lemma ManifestAsks(isBaseIn: bool, amountIn: u64, minOut: u64)
    ensures Asks(Manifest(isBaseIn), Data(Manifest(isBaseIn), amountIn, minOut), amountIn, minOut)
  {
    hide Le64, LittleEndian, FromLittleEndian;
    ReadBoth(Data(Manifest(isBaseIn), amountIn, minOut), [4], amountIn, [], minOut, [Flag(isBaseIn), 1]);
  }

  lemma PhoenixAsks(isAsk: bool, amountIn: u64, minOut: u64)
    ensures Asks(Phoenix(isAsk), Data(Phoenix(isAsk), amountIn, minOut), amountIn, minOut)
  {
    hide Le64, LittleEndian, FromLittleEndian;
    var head := [0, 1, Flag(isAsk)] + Le64(0);
    var tail := Le64(0) + [0, 0] + LittleEndian(0, 16) + [0];
    assert Data(Phoenix(isAsk), amountIn, minOut) == head + Le64(amountIn) + Le64(0) + Le64(minOut) + tail;
    ReadBoth(Data(Phoenix(isAsk), amountIn, minOut), head, amountIn, Le64(0), minOut, tail);
  }

  /** Every builder's data asks for exactly the two amounts it was given, read where that exchange reads them. */
  lemma DataAsks(l: Layout, amountIn: u64, minOut: u64)
    ensures Asks(l, Data(l, amountIn, minOut), amountIn, minOut)
  {
    hide Data, Asks;
    if AmountIsAtOffset(l) {
      AtOffsetAsks(l, amountIn, minOut);
    } else {
      match l
      case PumpBuy => PumpBuyAsks(amountIn, minOut);
      case Sanctum(s, d, i, j) => SanctumAsks(s, d, i, j, amountIn, minOut);
      case Manifest(isBaseIn) => ManifestAsks(isBaseIn, amountIn, minOut);
      case Phoenix(isAsk) => PhoenixAsks(isAsk, amountIn, minOut);
    }
  }

  lemma RewriteGivesRebuilt(l: Layout, amount: u64, n: u64, minOut: u64)
    requires AmountIsAtOffset(l)
    ensures Rewrite(Data(l, amount, minOut), AmountOffset(l), n) == Data(l, n, minOut)
  {
    hide Le64, LittleEndian, Data, Rewrite;
    DataAroundAmount(l, amount, minOut);
    DataAroundAmount(l, n, minOut);
    RewriteMiddle(Head(l), amount, Tail(l, minOut), n);
  }

  lemma NoAmount()
    ensures Le64(0) == [0, 0, 0, 0, 0, 0, 0, 0]
  {
  }

  lemma OneUnit()
    ensures Le64(1) == [1, 0, 0, 0, 0, 0, 0, 0]
  {
  }

  lemma FourthByte()
    ensures Le64(0x100_0000) == [0, 0, 0, 1, 0, 0, 0, 0]
  {
  }

  lemma SmallAmounts()
    ensures Le64(0) == [0, 0, 0, 0, 0, 0, 0, 0]
    ensures Le64(1) == [1, 0, 0, 0, 0, 0, 0, 0]
    ensures Le64(0x100_0000) == [0, 0, 0, 1, 0, 0, 0, 0]
  {
    hide Le64;
    NoAmount();
    OneUnit();
    FourthByte();
  }

  lemma PumpBuyMisses()
    ensures Rewrite(Data(PumpBuy, 0, 0), 8, 1)[8] != Data(PumpBuy, 1, 0)[8]
  {
    hide Le64, LittleEndian;
    SmallAmounts();
  }

  lemma SanctumMisses(s: byte, d: byte, i: nat, j: nat)
    ensures Rewrite(Data(Sanctum(s, d, i, j), 0, 0), 8, 0x100_0000)[11] != Data(Sanctum(s, d, i, j), 0x100_0000, 0)[11]
  {
    hide Le64, LittleEndian;
    SmallAmounts();
    var prefix := [1, s, d] + LittleEndian(i, 4) + LittleEndian(j, 4);
    assert |prefix| == 11;
    assert Data(Sanctum(s, d, i, j), 0x100_0000, 0) == prefix + Le64(0) + Le64(0x100_0000);
    assert (prefix + Le64(0) + Le64(0x100_0000))[11] == 0;
  }

  lemma ManifestMisses(isBaseIn: bool)
    ensures Rewrite(Data(Manifest(isBaseIn), 0, 0), 8, 1)[1] != Data(Manifest(isBaseIn), 1, 0)[1]
  {
    hide Le64, LittleEndian;
    SmallAmounts();
  }

  lemma PhoenixMisses(isAsk: bool)
    ensures Rewrite(Data(Phoenix(isAsk), 0, 0), 8, 1)[8] != Data(Phoenix(isAsk), 1, 0)[8]
  {
    hide Le64, LittleEndian;
    SmallAmounts();
    var prefix := [0, 1, Flag(isAsk)] + Le64(0);
    var tail := Le64(0) + Le64(0) + Le64(0) + [0, 0] + LittleEndian(0, 16) + [0];
    assert Data(Phoenix(isAsk), 1, 0) == prefix + Le64(1) + tail;
    assert (prefix + Le64(1) + tail)[8] == 0;
  }

  /** Amounts for which the rewritten data is not the rebuilt data. */
  lemma RewriteMisses(l: Layout)
    requires !AmountIsAtOffset(l)
    ensures var n: u64 := if l.Sanctum? then 0x100_0000 else 1;
            Rewrite(Data(l, 0, 0), AmountOffset(l), n) != Data(l, n, 0)
  {
    hide Data, Rewrite;
    match l
    case PumpBuy => PumpBuyMisses();
    case Sanctum(s, d, i, j) => SanctumMisses(s, d, i, j);
    case Manifest(isBaseIn) => ManifestMisses(isBaseIn);
    case Phoenix(isAsk) => PhoenixMisses(isAsk);
  }

  /** Rewriting the amount is rebuilding with the new amount exactly for the layouts that keep the amount at the
      offset. For PumpSwap buys, Sanctum, Manifest and Phoenix it overwrites other fields. */
  lemma RewriteCommutesExactlyFor(l: Layout)
    ensures RewriteCommutes(l) <==> AmountIsAtOffset(l)
  {
    hide Data, Rewrite;
    if AmountIsAtOffset(l) {
      forall amount: u64, n: u64, minOut: u64
        ensures Rewrite(Data(l, amount, minOut), AmountOffset(l), n) == Data(l, n, minOut)
      {
        RewriteGivesRebuilt(l, amount, n, minOut);
      }
    } else {
      RewriteMisses(l);
    }
  }
}
