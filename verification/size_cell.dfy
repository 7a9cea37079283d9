/**
 * The queue's size cell: one 32-bit word whose low 31 bits hold the live
 * element count and whose top bit (sSizeMask, 0x80000000) is the "ending"
 * flag set by End_PopWaiting.
 *
 * The queue class keeps the two parts as separate fields (a count and a
 * flag). This module describes the packed word the source manipulates, read
 * as an unsigned 32-bit value in [0, 2^32), and shows that its updates
 * (fetch_add, fetch_sub, fetch_or, fetch_and) and its reads (the mask in
 * size(), the sentinel test after a wake-up) act on that pair as the class
 * does. With only bit 31 involved, `w & ~sSizeMask` is `w % 2^31`,
 * `w & sSizeMask` is nonzero exactly when `w >= 2^31`, and
 * `w | sSizeMask` adds 2^31 when that bit is clear.
 */
module SizeCell {

  /** sSizeMask: the top bit of the cell. */
  const Mask: int := 0x8000_0000

  /** The number of distinct 32-bit words. */
  const Words: int := 0x1_0000_0000

  predicate IsWord(word: int) {
    0 <= word < Words
  }

  /** A count that fits below the flag bit. */
  predicate IsCount(count: int) {
    0 <= count < Mask
  }

  /** The cell holding `count` with the ending flag above it. */
  function Pack(count: int, ending: bool): (word: int)
    requires IsCount(count)
    ensures IsWord(word)
  {
    count + (if ending then Mask else 0)
  }

  /** size(): the cell with its high bit cleared. */
  function Count(word: int): (count: int)
    requires IsWord(word)
    ensures IsCount(count)
  {
    word % Mask
  }

  /** The high bit of the cell. */
  predicate IsEnding(word: int)
    requires IsWord(word)
  {
    word >= Mask
  }

  /** The wake-up test of Pop_Await and Pop_Multiple_Await: the cell equals sSizeMask. */
  predicate PopWaitEnded(word: int): (r: bool)
    ensures r ==> IsWord(word) && IsEnding(word) && Count(word) == 0
  {
    word == Mask
  }

  /** fetch_add: 32-bit addition that wraps around. */
  function FetchAdd(word: int, n: int): (r: int)
    ensures IsWord(r)
  {
    (word + n) % Words
  }

  /** fetch_sub: 32-bit subtraction that wraps around. */
  function FetchSub(word: int, n: int): (r: int)
    ensures IsWord(r)
  {
    (word - n) % Words
  }

  /** fetch_or with sSizeMask: sets the high bit. */
  function SetEnding(word: int): (r: int)
    requires IsWord(word)
    ensures IsWord(r)
  {
    if word >= Mask then word else word + Mask
  }

  /** fetch_and with ~sSizeMask: clears the high bit. */
  function ClearEnding(word: int): (r: int)
    requires IsWord(word)
    ensures IsWord(r)
  {
    word % Mask
  }

  /** Unpacking a packed cell gives back its count and its flag. */
  lemma UnpackPack(count: int, ending: bool)
    requires IsCount(count)
    ensures Count(Pack(count, ending)) == count
    ensures IsEnding(Pack(count, ending)) == ending
  {
  }

  /** Every word is the packing of its count and its flag. */
  lemma PackUnpack(word: int)
    requires IsWord(word)
    ensures Pack(Count(word), IsEnding(word)) == word
  {
  }

  /** The cell equals the sentinel exactly when it is ending with no element left. */
  lemma SentinelIffEndingAndEmpty(count: int, ending: bool)
    requires IsCount(count)
    ensures PopWaitEnded(Pack(count, ending)) <==> ending && count == 0
  {
  }

  /** Increase_Size and End_PopWaiting notify only when the prior cell was 0. */
  lemma ZeroIffOpenAndEmpty(count: int, ending: bool)
    requires IsCount(count)
    ensures Pack(count, ending) == 0 <==> !ending && count == 0
  {
  }

  /** End_PopWaiting's fetch_or sets the flag and keeps the count. */
  lemma SetEndingKeepsCount(count: int, ending: bool)
    requires IsCount(count)
    ensures SetEnding(Pack(count, ending)) == Pack(count, true)
  {
  }

  /** Reset_PopWaiting's fetch_and clears the flag and keeps the count. */
  lemma ClearEndingKeepsCount(count: int, ending: bool)
    requires IsCount(count)
    ensures ClearEnding(Pack(count, ending)) == Pack(count, false)
  {
  }

  /** Increase_Size's fetch_add adds to the count and keeps the flag while the count stays below it. */
  lemma AddKeepsEnding(count: int, ending: bool, n: int)
    requires IsCount(count) && 0 <= n && IsCount(count + n)
    ensures FetchAdd(Pack(count, ending), n) == Pack(count + n, ending)
  {
  }

  /** Decrease_Size's fetch_sub subtracts from the count and keeps the flag. */
  lemma SubKeepsEnding(count: int, ending: bool, n: int)
    requires IsCount(count) && 0 <= n <= count
    ensures FetchSub(Pack(count, ending), n) == Pack(count - n, ending)
  {
  }
}
