/**
 * 2024 day 22 (2024/src/day22.hpp): monkey market. Each buyer's secret
 * number evolves by three xor-shift steps kept to 24 bits; the price is
 * the secret's last decimal digit, and the last four price changes form
 * the sequence a sale can be triggered by. Every sequence records, per
 * buyer, the price at its first occurrence.
 */
module Y2024Day22 {

  /** The four most recent price changes, oldest first. */
  type ChangeSequence = s: seq<int> | |s| == 4 witness [0, 0, 0, 0]

  /** `add_price_change`: drop the oldest change and append the new one. */
  function AddPriceChange(changes: ChangeSequence, newChange: int): (r: ChangeSequence)
    ensures r[..3] == changes[1..] && r[3] == newChange
  {
    [changes[1], changes[2], changes[3], newChange]
  }

  /** The low 24 bits of the secret survive each step. */
  const Mask: bv32 := 0xFF_FFFF

  /**
   * `xorshift`: xor the secret with itself shifted left (shift > 0) or
   * right (shift < 0) in 32 bits, and keep the low 24 bits.
   */
  function XorShift(secret: bv32, shift: int): (r: bv32)
    requires -32 < shift < 32
    ensures r <= Mask
  {
    var tmp := if shift < 0 then secret >> (-shift) else secret << shift;
    (secret ^ tmp) & Mask
  }

  /** The three steps of `evolve`. */
  function NextSecret(secret: bv32): bv32
  {
    XorShift(XorShift(XorShift(secret, 6), -5), 11)
  }

  /** `get_price`: the last decimal digit of the secret. */
  function Price(secret: bv32): (p: int)
    ensures 0 <= p <= 9
  {
    (secret as int) % 10
  }

  /**
   * The puzzle's own rule, in three steps: mix in the secret times 64 and
   * prune to 16777216, mix in the secret divided by 32 and prune, mix in
   * the secret times 2048 and prune. The products are taken in 32 bits;
   * wrapping at 2^32 leaves the low 24 bits that the prune keeps unchanged.
   */
  function PuzzleNext(secret: bv32): bv32
  {
    MixTimes2048(MixDiv32(MixTimes64(secret)))
  }

  function MixTimes64(s: bv32): bv32
  {
    ((s * 64) ^ s) % 16777216
  }

  function MixDiv32(s: bv32): bv32
  {
    ((s / 32) ^ s) % 16777216
  }

  function MixTimes2048(s: bv32): bv32
  {
    ((s * 2048) ^ s) % 16777216
  }

  /** The first shift of `evolve` is the puzzle's first step. */
  lemma FirstStep(s: bv32)
    ensures XorShift(s, 6) == MixTimes64(s)
  {
    assert s << 6 == s * 64;
  }

  /** The second shift is the second step. */
  lemma SecondStep(s: bv32)
    ensures XorShift(s, -5) == MixDiv32(s)
  {
    assert XorShift(s, -5) == (s ^ (s >> 5)) & Mask;
    ShiftRightIsDivision(s);
  }

  lemma ShiftRightIsDivision(s: bv32)
    ensures (s ^ (s >> 5)) & Mask == MixDiv32(s)
  {
    assert s >> 5 == s / 32;
  }

  /** The third shift is the third step. */
  lemma ThirdStep(s: bv32)
    ensures XorShift(s, 11) == MixTimes2048(s)
  {
  }

  /** `evolve` computes the puzzle's next secret number. */
  lemma NextSecretIsPuzzleNext(secret: bv32)
    ensures NextSecret(secret) == PuzzleNext(secret)
    ensures NextSecret(secret) <= Mask
  {
    FirstStep(secret);
    SecondStep(MixTimes64(secret));
    ThirdStep(MixDiv32(MixTimes64(secret)));
  }

  /** The prices seen for each change sequence: buyer number to price. */
  type SequencePrices = map<ChangeSequence, map<int, int>>

  /**
   * `sequence_prices[changes].try_emplace(monkey, price)`: the entry for
   * the sequence is created when missing, and the price goes in only when
   * the buyer has none there yet.
   */
  function TryEmplace(m: SequencePrices, changes: ChangeSequence, monkey: int, price: int): (r: SequencePrices)
    ensures changes in r && monkey in r[changes]
    ensures r[changes][monkey] == if changes in m && monkey in m[changes] then m[changes][monkey] else price
    ensures forall c :: c in m ==> c in r && forall b :: b in m[c] ==> b in r[c] && r[c][b] == m[c][b]
    ensures forall c, b :: c in r && b in r[c] ==> (c in m && b in m[c]) || (c == changes && b == monkey)
  {
    var inner := if changes in m then m[changes] else map[];
    m[changes := if monkey in inner then inner else inner[monkey := price]]
  }

  /** The record of first prices shared by all buyers (the static `sequence_prices`). */
  class Market {
    var sequencePrices: SequencePrices

    constructor ()
      ensures sequencePrices == map[]
    {
      sequencePrices := map[];
    }
  }

  class PriceSequence {
    var secret: bv32
    const monkeyNumber: int
    var currChanges: ChangeSequence

    constructor (initialSecret: bv32, monkeyNumber: int)
      ensures secret == initialSecret && this.monkeyNumber == monkeyNumber
      ensures currChanges == [0, 0, 0, 0]
    {
      secret := initialSecret;
      this.monkeyNumber := monkeyNumber;
      currChanges := [0, 0, 0, 0];
    }

    /**
     * `evolve`: the next secret, the price change it brings, and from the
     * fourth step on (iter >= 3) the buyer's first price for the current
     * change sequence.
     */
    method Evolve(iter: int, market: Market)
      modifies this, market
      ensures secret == NextSecret(old(secret))
      ensures currChanges == AddPriceChange(old(currChanges), Price(secret) - Price(old(secret)))
      ensures market.sequencePrices == if iter >= 3
        then TryEmplace(old(market.sequencePrices), currChanges, monkeyNumber, Price(secret))
        else old(market.sequencePrices)
    {
      ghost var before := secret;
      var oldPrice := Price(secret);
      secret := XorShift(secret, 6);
      secret := XorShift(secret, -5);
      secret := XorShift(secret, 11);
      assert secret == NextSecret(before);
      var newPrice := Price(secret);
      currChanges := AddPriceChange(currChanges, newPrice - oldPrice);
      if iter >= 3 {
        market.sequencePrices := TryEmplace(market.sequencePrices, currChanges, monkeyNumber, newPrice);
      }
    }
  }

  /** Each recorded change lies between -9 and 9. */
  lemma PriceChangeBounds(before: bv32, after: bv32)
    ensures -9 <= Price(after) - Price(before) <= 9
  {
  }

  /** Four changes fill the window whatever it held before. */
  lemma WindowAfterFour(changes: ChangeSequence, a: int, b: int, c: int, d: int)
    ensures AddPriceChange(AddPriceChange(AddPriceChange(AddPriceChange(changes, a), b), c), d) == [a, b, c, d]
  {
  }

  /** A buyer's first price for a sequence is never overwritten. */
  lemma FirstPriceKept(m: SequencePrices, changes: ChangeSequence, monkey: int, price: int, price2: int)
    ensures var once := TryEmplace(m, changes, monkey, price);
      TryEmplace(once, changes, monkey, price2) == once
  {
  }

  /** From the worked example: the secret 123 is followed by 15887950 and then 16495136. */
  lemma Example()
    ensures NextSecret(123) == 15887950
    ensures NextSecret(15887950) == 16495136
    ensures Price(123) == 3 && Price(15887950) == 0
  {
  }
}
