/** The integrity checks of flash_helper.c: one over the whole application at start-up, and one in
    chunks of a kilobyte while the motor runs. */
module FlashIntegrity {
  import opened Gf2

  /** Thirty-two bits. */
  type Bits32 = w: Poly | |w| == 32 witness Zeros(32)

  const NULL_WORD: Bits32 := Zeros(32)

  function Ones(): (w: Bits32)
    ensures forall i :: 0 <= i < 32 ==> w[i]
  {
    seq(32, _ => true)
  }

  // Addresses are word indices from the start of flash.

  const FLASH_WORDS := 0x40000
  const VECTOR_WORDS := 0x1000
  const EEPROM_END := 0x3000

  /** APP_MAX_SIZE, VECTOR_TABLE_SIZE and APP_SIZE in bytes. */
  const APP_MAX_SIZE := 393216 - 8
  const VECTOR_TABLE_SIZE := 0x4000
  const APP_SIZE := APP_MAX_SIZE - VECTOR_TABLE_SIZE - 0x8000
  const TOTAL_BYTES := VECTOR_TABLE_SIZE + APP_SIZE

  const FLAG_ADDRESS := (APP_MAX_SIZE - 8) / 4
  const CRC_ADDRESS := (APP_MAX_SIZE - 4) / 4

  datatype Fault = FaultCodeNone | FaultCodeFlashCorruption

  // ----- The CRC unit -----

  /** The unit maps its register, after a word has been added to it, by a map that takes zero to zero
      and no two registers to the same one. */
  ghost predicate IsCrcUnit(unit: Bits32 -> Bits32) {
    unit(NULL_WORD) == NULL_WORD && forall x: Bits32, y: Bits32 :: unit(x) == unit(y) ==> x == y
  }

  function Feed(unit: Bits32 -> Bits32, dr: Bits32, words: seq<Bits32>): Bits32 {
    if words == [] then dr
    else unit(Xor(Feed(unit, dr, words[..|words| - 1]), words[|words| - 1]))
  }

  lemma {:induction false} FeedAppend(unit: Bits32 -> Bits32, dr: Bits32, a: seq<Bits32>, b: seq<Bits32>)
    ensures Feed(unit, dr, a + b) == Feed(unit, Feed(unit, dr, a), b)
  {
    if b == [] {
      assert a + b == a;
    } else {
      var n := |b| - 1;
      assert (a + b)[..|a| + n] == a + b[..n];
      FeedAppend(unit, dr, a, b[..n]);
    }
  }

  lemma XorCancels(x: Bits32, y: Bits32)
    ensures Xor(x, y) == NULL_WORD <==> x == y
  {
    if Xor(x, y) == NULL_WORD {
      assert forall i :: 0 <= i < 32 ==> !Xor(x, y)[i];
    }
  }

  lemma XorInjective(x: Bits32, y: Bits32, w: Bits32)
    ensures Xor(x, w) == Xor(y, w) <==> x == y
    ensures Xor(w, x) == Xor(w, y) <==> x == y
  {
    if Xor(x, w) == Xor(y, w) {
      assert forall i :: 0 <= i < 32 ==> Xor(x, w)[i] == Xor(y, w)[i];
    }
    if Xor(w, x) == Xor(w, y) {
      assert forall i :: 0 <= i < 32 ==> Xor(w, x)[i] == Xor(w, y)[i];
    }
  }

  /** The checksum of a sequence that ends in its own checksum is zero, and of no other. */
  lemma ZeroResidue(unit: Bits32 -> Bits32, words: seq<Bits32>, last: Bits32)
    requires IsCrcUnit(unit)
    ensures Feed(unit, Ones(), words + [last]) == NULL_WORD <==> last == Feed(unit, Ones(), words)
  {
    var c := Feed(unit, Ones(), words);
    assert (words + [last])[..|words|] == words;
    XorCancels(c, last);
    assert unit(Xor(c, last)) == NULL_WORD <==> Xor(c, last) == NULL_WORD;
  }

  lemma {:induction false} FeedInjective(unit: Bits32 -> Bits32, dr: Bits32, dr': Bits32, words: seq<Bits32>)
    requires IsCrcUnit(unit) && dr != dr'
    ensures Feed(unit, dr, words) != Feed(unit, dr', words)
  {
    if words != [] {
      var n := |words| - 1;
      FeedInjective(unit, dr, dr', words[..n]);
      XorInjective(Feed(unit, dr, words[..n]), Feed(unit, dr', words[..n]), words[n]);
    }
  }

  /** Two sequences that differ in one word never have the same checksum. */
  lemma WordErrorDetected(unit: Bits32 -> Bits32, words: seq<Bits32>, k: nat, w: Bits32)
    requires IsCrcUnit(unit) && k < |words| && words[k] != w
    ensures Feed(unit, Ones(), words[k := w]) != Feed(unit, Ones(), words)
  {
    var bad := words[k := w];
    var dr, tail := Feed(unit, Ones(), words[..k]), words[k + 1..];
    XorInjective(words[k], w, dr);
    assert words[..k + 1][..k] == words[..k] && bad[..k + 1][..k] == words[..k];
    assert words == words[..k + 1] + tail && bad == bad[..k + 1] + tail;
    FeedAppend(unit, Ones(), words[..k + 1], tail);
    FeedAppend(unit, Ones(), bad[..k + 1], tail);
    FeedInjective(unit, unit(Xor(dr, words[k])), unit(Xor(dr, w)), tail);
  }

  // ----- What is checked -----

  /** The vector table in sector 0 and the application from sector 3 on, but not the two pages of
      emulated EEPROM in between. */
  function Image(flash: seq<Bits32>): (words: seq<Bits32>)
    requires |flash| == FLASH_WORDS
    ensures |words| == TOTAL_BYTES / 4
  {
    flash[..VECTOR_WORDS] + flash[EEPROM_END..CRC_ADDRESS + 1]
  }

  lemma ImagePrefix(flash: seq<Bits32>, n: nat)
    requires |flash| == FLASH_WORDS && n <= APP_SIZE / 4
    ensures flash[0..VECTOR_WORDS] + flash[EEPROM_END..EEPROM_END + n] == Image(flash)[..VECTOR_WORDS + n]
  {
  }

  predicate Checked(i: nat) {
    i < VECTOR_WORDS || EEPROM_END <= i <= CRC_ADDRESS
  }

  /** The checks depend on these words and on no others. */
  lemma ImageIsChecked(flash: seq<Bits32>, other: seq<Bits32>)
    requires |flash| == |other| == FLASH_WORDS
    ensures Image(flash) == Image(other) <==> forall i: nat :: Checked(i) ==> flash[i] == other[i]
  {
    if Image(flash) == Image(other) {
      forall i: nat | Checked(i) ensures flash[i] == other[i] {
        var k := if i < VECTOR_WORDS then i else i - EEPROM_END + VECTOR_WORDS;
        assert Image(flash)[k] == flash[i] && Image(other)[k] == other[i];
      }
    }
  }

  /** The verdict that both checks are after. */
  function Residue(unit: Bits32 -> Bits32, flash: seq<Bits32>): Bits32
    requires |flash| == FLASH_WORDS
  {
    Feed(unit, Ones(), Image(flash))
  }

  function Verdict(unit: Bits32 -> Bits32, flash: seq<Bits32>): Fault
    requires |flash| == FLASH_WORDS
  {
    if Residue(unit, flash) == NULL_WORD then FaultCodeNone else FaultCodeFlashCorruption
  }

  // ----- Storing the checksum -----

  function And(x: Bits32, y: Bits32): (z: Bits32)
    ensures forall i :: 0 <= i < 32 ==> z[i] == (x[i] && y[i])
  {
    seq(32, i requires 0 <= i < 32 => x[i] && y[i])
  }

  /** FLASH_ProgramWord clears bits, and sets none. */
  function Programmed(flash: seq<Bits32>, a: nat, w: Bits32): (f: seq<Bits32>)
    requires a < |flash|
    ensures |f| == |flash|
  {
    flash[a := And(flash[a], w)]
  }

  function StoredChecksum(unit: Bits32 -> Bits32, flash: seq<Bits32>): Bits32
    requires |flash| == FLASH_WORDS
  {
    Feed(unit, Ones(), Image(flash)[..TOTAL_BYTES / 4 - 1])
  }

  function Flagged(flash: seq<Bits32>): (f: seq<Bits32>)
    requires |flash| == FLASH_WORDS
    ensures |f| == FLASH_WORDS
  {
    Programmed(flash, FLAG_ADDRESS, NULL_WORD)
  }

  /** Flash after the first start of an application. */
  function Stored(unit: Bits32 -> Bits32, flash: seq<Bits32>): (f: seq<Bits32>)
    requires |flash| == FLASH_WORDS
    ensures |f| == FLASH_WORDS
  {
    Programmed(Flagged(flash), CRC_ADDRESS, StoredChecksum(unit, Flagged(flash)))
  }

  lemma AndMasks(x: Bits32, w: Bits32)
    ensures And(x, NULL_WORD) == NULL_WORD
    ensures And(Ones(), w) == w
  {
  }

  /** A check finds nothing wrong exactly if the last word is the checksum of the others. */
  lemma SoundExactly(unit: Bits32 -> Bits32, flash: seq<Bits32>)
    requires IsCrcUnit(unit) && |flash| == FLASH_WORDS
    ensures Verdict(unit, flash) == FaultCodeNone <==> flash[CRC_ADDRESS] == StoredChecksum(unit, flash)
  {
    var image, n := Image(flash), TOTAL_BYTES / 4 - 1;
    assert image == image[..n] + [flash[CRC_ADDRESS]];
    ZeroResidue(unit, image[..n], flash[CRC_ADDRESS]);
  }

  /** The stored checksum is found correct by every later check, exactly if the word for it had all
      the bits that it needs; an erased word has. */
  lemma StoredIsFound(unit: Bits32 -> Bits32, flash: seq<Bits32>)
    requires IsCrcUnit(unit) && |flash| == FLASH_WORDS
    ensures var c, f := StoredChecksum(unit, Flagged(flash)), Stored(unit, flash);
            && f[FLAG_ADDRESS] == NULL_WORD
            && (Verdict(unit, f) == FaultCodeNone <==> And(flash[CRC_ADDRESS], c) == c)
            && (flash[CRC_ADDRESS] == Ones() ==> Verdict(unit, f) == FaultCodeNone)
  {
    var flagged, f, n := Flagged(flash), Stored(unit, flash), TOTAL_BYTES / 4 - 1;
    AndMasks(flash[FLAG_ADDRESS], StoredChecksum(unit, flagged));
    assert Image(f)[..n] == Image(flagged)[..n];
    SoundExactly(unit, f);
  }

  /** If the power fails between the flag and the checksum, or the checksum cannot be programmed, then
      every later start reports a corruption of a sound application, except when the word for the
      checksum happens to hold it already: for an erased word, when the checksum is all ones. */
  lemma FlaggedIsReported(unit: Bits32 -> Bits32, flash: seq<Bits32>)
    requires IsCrcUnit(unit) && |flash| == FLASH_WORDS
    ensures var c, f := StoredChecksum(unit, Flagged(flash)), Flagged(flash);
            && f[FLAG_ADDRESS] == NULL_WORD
            && (Verdict(unit, f) == FaultCodeFlashCorruption <==> flash[CRC_ADDRESS] != c)
            && (flash[CRC_ADDRESS] == Ones() ==> (Verdict(unit, f) == FaultCodeFlashCorruption <==> c != Ones()))
  {
    AndMasks(flash[FLAG_ADDRESS], NULL_WORD);
    SoundExactly(unit, Flagged(flash));
  }

  /** A word of the application that changes afterwards is reported. */
  lemma CorruptionIsReported(unit: Bits32 -> Bits32, flash: seq<Bits32>, i: nat, w: Bits32)
    requires IsCrcUnit(unit) && |flash| == FLASH_WORDS && Verdict(unit, flash) == FaultCodeNone
    requires Checked(i) && flash[i] != w
    ensures Verdict(unit, flash[i := w]) == FaultCodeFlashCorruption
  {
    var k := if i < VECTOR_WORDS then i else i - EEPROM_END + VECTOR_WORDS;
    assert Image(flash[i := w]) == Image(flash)[k := w];
    WordErrorDetected(unit, Image(flash), k, w);
  }

  // ----- The same in numbers -----

  /** Setting the flag clears word 98300, storing the checksum programs word 98301, and no other word
      changes. */
  lemma WordsWritten(unit: Bits32 -> Bits32, flash: seq<Bits32>, i: nat)
    requires |flash| == FLASH_WORDS && i < 0x40000
    ensures Flagged(flash)[i] == if i == 98300 then NULL_WORD else flash[i]
    ensures i != 98300 && i != 98301 ==> Stored(unit, flash)[i] == flash[i]
    ensures Stored(unit, flash)[98300] == NULL_WORD
    ensures Stored(unit, flash)[98301] == And(flash[98301], StoredChecksum(unit, Flagged(flash)))
  {
    AndMasks(flash[98300], NULL_WORD);
  }

  /** Checked are words 0 to 4095 and 12288 to 98301; the checksum of all but the last, from a register
      of ones, is what the last has to be. */
  lemma WordsChecked(unit: Bits32 -> Bits32, flash: seq<Bits32>, ones: Bits32)
    requires IsCrcUnit(unit) && |flash| == FLASH_WORDS && forall i :: 0 <= i < 32 ==> ones[i]
    ensures Image(flash) == flash[..4096] + flash[12288..98302]
    ensures Verdict(unit, flash) == FaultCodeNone <==>
            flash[98301] == Feed(unit, ones, flash[..4096] + flash[12288..98301])
  {
    assert ones == Ones();
    assert Image(flash)[..TOTAL_BYTES / 4 - 1] == flash[..4096] + flash[12288..98301];
    SoundExactly(unit, flash);
  }

  // ----- The check in chunks -----

  /** The register of the CRC unit, and the static index. */
  datatype Sweeper = Sweeper(dr: Bits32, index: nat)

  datatype Reported = Reported(sweeper: Sweeper, fault: Fault)

  const CHUNK := 1024

  function ChunkSize(index: nat): nat
    requires index < TOTAL_BYTES
  {
    if index + CHUNK >= TOTAL_BYTES then TOTAL_BYTES - index else CHUNK
  }

  /** The words that one call feeds to the unit. */
  function ChunkWords(flash: seq<Bits32>, index: nat): seq<Bits32>
    requires |flash| == FLASH_WORDS && index < TOTAL_BYTES
  {
    var start := if index < VECTOR_TABLE_SIZE then index / 4 else EEPROM_END + (index - VECTOR_TABLE_SIZE) / 4;
    flash[start..start + ChunkSize(index) / 4]
  }

  function Chunk(unit: Bits32 -> Bits32, flash: seq<Bits32>, s: Sweeper): Reported
    requires |flash| == FLASH_WORDS && s.index < TOTAL_BYTES
  {
    var dr := Feed(unit, if s.index == 0 then Ones() else s.dr, ChunkWords(flash, s.index));
    var crc := if s.index < VECTOR_TABLE_SIZE then NULL_WORD else dr;
    var index := s.index + ChunkSize(s.index);
    if index >= TOTAL_BYTES
    then Reported(Sweeper(dr, 0), if crc != NULL_WORD then FaultCodeFlashCorruption else FaultCodeNone)
    else Reported(Sweeper(dr, index), FaultCodeNone)
  }

  /** A sweep over this image has got to the index. */
  ghost predicate Partway(unit: Bits32 -> Bits32, image: seq<Bits32>, s: Sweeper)
    requires |image| == TOTAL_BYTES / 4
  {
    && s.index < TOTAL_BYTES && s.index % CHUNK == 0
    && (s.index > 0 ==> s.dr == Feed(unit, Ones(), image[..s.index / 4]))
  }

  /** No chunk straddles the boundary of the vector table. */
  lemma ChunkOfImage(flash: seq<Bits32>, index: nat)
    requires |flash| == FLASH_WORDS && index < TOTAL_BYTES && index % CHUNK == 0
    ensures ChunkWords(flash, index) == Image(flash)[index / 4..(index + ChunkSize(index)) / 4]
  {
    var lo, n := index / 4, ChunkSize(index) / 4;
    ChunkBounds(index);
    if index < VECTOR_TABLE_SIZE {
      SliceFirst(flash, lo, lo + n);
    } else {
      SliceSecond(flash, lo - VECTOR_WORDS, lo - VECTOR_WORDS + n);
    }
  }

  lemma ChunkBounds(index: nat)
    requires index < TOTAL_BYTES && index % CHUNK == 0
    ensures (index + ChunkSize(index)) / 4 == index / 4 + ChunkSize(index) / 4 <= TOTAL_BYTES / 4
    ensures index < VECTOR_TABLE_SIZE ==> index / 4 + ChunkSize(index) / 4 <= VECTOR_WORDS
    ensures index >= VECTOR_TABLE_SIZE ==> (index - VECTOR_TABLE_SIZE) / 4 == index / 4 - VECTOR_WORDS
  {
    assert index < VECTOR_TABLE_SIZE ==> index + CHUNK <= VECTOR_TABLE_SIZE;
  }

  lemma SliceFirst(flash: seq<Bits32>, lo: nat, hi: nat)
    requires |flash| == FLASH_WORDS && lo <= hi <= VECTOR_WORDS
    ensures Image(flash)[lo..hi] == flash[lo..hi]
  {
    forall k | 0 <= k < hi - lo ensures Image(flash)[lo..hi][k] == flash[lo..hi][k] {
      assert Image(flash)[lo + k] == flash[..VECTOR_WORDS][lo + k] == flash[lo + k];
    }
    assert Image(flash)[lo..hi] == flash[lo..hi];
  }

  lemma SliceSecond(flash: seq<Bits32>, lo: nat, hi: nat)
    requires |flash| == FLASH_WORDS && lo <= hi <= CRC_ADDRESS + 1 - EEPROM_END
    ensures Image(flash)[VECTOR_WORDS + lo..VECTOR_WORDS + hi] == flash[EEPROM_END + lo..EEPROM_END + hi]
  {
    var image, i, j := Image(flash), VECTOR_WORDS + lo, EEPROM_END + lo;
    var s, t := image[i..i + hi - lo], flash[j..j + hi - lo];
    forall k | 0 <= k < hi - lo ensures s[k] == t[k] {
      assert image[i + k] == flash[EEPROM_END..CRC_ADDRESS + 1][lo + k] == flash[j + k];
    }
    assert s == t;
  }

  lemma FeedSlice(unit: Bits32 -> Bits32, image: seq<Bits32>, lo: nat, hi: nat)
    requires lo <= hi <= |image|
    ensures Feed(unit, if lo == 0 then Ones() else Feed(unit, Ones(), image[..lo]), image[lo..hi])
            == Feed(unit, Ones(), image[..hi])
  {
    assert image[..lo] + image[lo..hi] == image[..hi];
    FeedAppend(unit, Ones(), image[..lo], image[lo..hi]);
    if lo == 0 {
      assert image[..lo] == [];
    }
  }

  lemma ChunkFed(unit: Bits32 -> Bits32, flash: seq<Bits32>, s: Sweeper)
    requires |flash| == FLASH_WORDS && Partway(unit, Image(flash), s)
    ensures Feed(unit, if s.index == 0 then Ones() else s.dr, ChunkWords(flash, s.index))
            == Feed(unit, Ones(), Image(flash)[..(s.index + ChunkSize(s.index)) / 4])
  {
    var image, lo, hi := Image(flash), s.index / 4, (s.index + ChunkSize(s.index)) / 4;
    ChunkOfImage(flash, s.index);
    FeedSlice(unit, image, lo, hi);
  }

  /** One call takes a sweep one chunk further; the last one reports what the whole check would. */
  lemma ChunkAdvances(unit: Bits32 -> Bits32, flash: seq<Bits32>, s: Sweeper)
    requires |flash| == FLASH_WORDS && Partway(unit, Image(flash), s)
    ensures var r := Chunk(unit, flash, s);
            && Partway(unit, Image(flash), r.sweeper)
            && (s.index + CHUNK < TOTAL_BYTES ==> r.fault == FaultCodeNone && r.sweeper.index == s.index + CHUNK)
            && (s.index + CHUNK >= TOTAL_BYTES ==> r.fault == Verdict(unit, flash) && r.sweeper.index == 0)
  {
    ChunkFed(unit, flash, s);
    if s.index + CHUNK >= TOTAL_BYTES {
      assert Image(flash)[..(s.index + ChunkSize(s.index)) / 4] == Image(flash);
    }
  }

  /** A run of calls. The emulated EEPROM may be written between them: each call sees flash as it
      is at the time. */
  function Sweep(unit: Bits32 -> Bits32, flashes: seq<seq<Bits32>>, s: Sweeper): Reported
    requires forall i :: 0 <= i < |flashes| ==> |flashes[i]| == FLASH_WORDS
    requires s.index < TOTAL_BYTES
  {
    if flashes == [] then Reported(s, FaultCodeNone)
    else Chunk(unit, flashes[|flashes| - 1], Sweep(unit, flashes[..|flashes| - 1], s).sweeper)
  }

  const SWEEP_CALLS := 352

  /** After n calls, n kilobytes have been checked and nothing has been reported. */
  lemma {:induction false} SweepPartway(unit: Bits32 -> Bits32, flashes: seq<seq<Bits32>>, image: seq<Bits32>,
                                        s: Sweeper)
    requires s.index == 0 && |image| == TOTAL_BYTES / 4 && |flashes| < SWEEP_CALLS
    requires forall i :: 0 <= i < |flashes| ==> |flashes[i]| == FLASH_WORDS && Image(flashes[i]) == image
    ensures var r := Sweep(unit, flashes, s);
            Partway(unit, image, r.sweeper) && r.fault == FaultCodeNone && r.sweeper.index == CHUNK * |flashes|
  {
    if flashes != [] {
      var n := |flashes| - 1;
      SweepPartway(unit, flashes[..n], image, s);
      ChunkAdvances(unit, flashes[n], Sweep(unit, flashes[..n], s).sweeper);
    }
  }

  /** A sweep of 352 calls reports exactly what the check at start-up would, on its last call, and is
      back at the start; whatever is stored in the emulated EEPROM meanwhile. */
  lemma SweepIsOneShot(unit: Bits32 -> Bits32, flashes: seq<seq<Bits32>>, image: seq<Bits32>, s: Sweeper)
    requires s.index == 0 && |image| == TOTAL_BYTES / 4 && |flashes| == SWEEP_CALLS
    requires forall i :: 0 <= i < |flashes| ==> |flashes[i]| == FLASH_WORDS && Image(flashes[i]) == image
    ensures var r := Sweep(unit, flashes, s);
            r.sweeper.index == 0 && r.fault == Verdict(unit, flashes[0])
    ensures forall n :: 0 <= n < SWEEP_CALLS ==> Sweep(unit, flashes[..n], s).fault == FaultCodeNone
  {
    forall n | 0 <= n < SWEEP_CALLS ensures Sweep(unit, flashes[..n], s).fault == FaultCodeNone {
      SweepPartway(unit, flashes[..n], image, s);
    }
    var last := flashes[SWEEP_CALLS - 1];
    SweepPartway(unit, flashes[..SWEEP_CALLS - 1], image, s);
    ChunkAdvances(unit, last, Sweep(unit, flashes[..SWEEP_CALLS - 1], s).sweeper);
  }

  // ----- The code -----

  class FlashHelper {
    const flash: array<Bits32>
    const unit: Bits32 -> Bits32
    var dr: Bits32
    var index: nat

    ghost predicate Valid()
      reads this
    {
      flash.Length == FLASH_WORDS && index < TOTAL_BYTES
    }

    ghost function View(): Sweeper
      reads this
    {
      Sweeper(dr, index)
    }

    constructor (flash: array<Bits32>, unit: Bits32 -> Bits32)
      requires flash.Length == FLASH_WORDS
      ensures Valid() && this.flash == flash && this.unit == unit && View().index == 0
    {
      this.flash, this.unit := flash, unit;
      dr, index := Ones(), 0;
    }

    /** crc32 of crc.c. */
    method Crc32(start: nat, length: nat) returns (crc: Bits32)
      requires Valid() && start + length <= FLASH_WORDS
      modifies this`dr
      ensures dr == crc == Feed(unit, old(dr), flash[..][start..start + length])
    {
      var i := 0;
      while i < length
        invariant 0 <= i <= length
        invariant dr == Feed(unit, old(dr), flash[..][start..start + i])
      {
        assert flash[..][start..start + i + 1][..i] == flash[..][start..start + i];
        dr := unit(Xor(dr, flash[start + i]));
        i := i + 1;
      }
      crc := dr;
    }

    /** crc32 over the vector table and then over this much of the application. */
    method CrcOfImage(appWords: nat) returns (crc: Bits32)
      requires Valid() && appWords <= APP_SIZE / 4
      modifies this`dr
      ensures crc == Feed(unit, Ones(), Image(flash[..])[..VECTOR_WORDS + appWords])
    {
      dr := Ones();
      var _ := Crc32(0, VECTOR_TABLE_SIZE / 4);
      crc := Crc32(EEPROM_END, appWords);
      ghost var a, b := flash[..][0..VECTOR_WORDS], flash[..][EEPROM_END..EEPROM_END + appWords];
      FeedAppend(unit, Ones(), a, b);
      ImagePrefix(flash[..], appWords);
    }

    /** FLASH_ProgramWord, which can fail and then leaves flash as it was. */
    method ProgramWord(a: nat, w: Bits32, works: bool)
      requires Valid() && a < FLASH_WORDS
      modifies flash
      ensures flash[..] == if works then Programmed(old(flash[..]), a, w) else old(flash[..])
    {
      if works {
        flash[a] := And(flash[a], w);
      }
    }

    /** flash_helper_verify_flash_memory. The two flags say whether programming works. */
    method VerifyFlashMemory(flagWorks: bool, crcWorks: bool) returns (fault: Fault, reboot: bool)
      requires Valid()
      modifies this`dr, flash
      ensures reboot <==> old(flash[FLAG_ADDRESS]) != NULL_WORD && flagWorks && crcWorks
      ensures fault == if old(flash[FLAG_ADDRESS]) == NULL_WORD then Verdict(unit, old(flash[..]))
                       else if reboot then FaultCodeNone else FaultCodeFlashCorruption
      ensures flash[..] == if old(flash[FLAG_ADDRESS]) == NULL_WORD || !flagWorks then old(flash[..])
                           else if crcWorks then Stored(unit, old(flash[..])) else Flagged(old(flash[..]))
    {
      if flash[FLAG_ADDRESS] == NULL_WORD {
        fault := CheckChecksum();
        return fault, false;
      }
      ProgramWord(FLAG_ADDRESS, NULL_WORD, flagWorks);
      if !flagWorks {
        return FaultCodeFlashCorruption, false;
      }
      fault := StoreChecksum(crcWorks);
      reboot := crcWorks;
    }

    /** The branch for an application whose checksum has been stored. */
    method CheckChecksum() returns (fault: Fault)
      requires Valid()
      modifies this`dr
      ensures fault == Verdict(unit, flash[..])
    {
      var crc := CrcOfImage(APP_SIZE / 4);
      assert Image(flash[..])[..TOTAL_BYTES / 4] == Image(flash[..]);
      fault := if crc == NULL_WORD then FaultCodeNone else FaultCodeFlashCorruption;
    }

    /** The other branch, behind the programming of the flag. */
    method StoreChecksum(crcWorks: bool) returns (fault: Fault)
      requires Valid()
      modifies this`dr, flash
      ensures fault == if crcWorks then FaultCodeNone else FaultCodeFlashCorruption
      ensures var before := old(flash[..]);
              flash[..] == if crcWorks then Programmed(before, CRC_ADDRESS, StoredChecksum(unit, before)) else before
    {
      var crc := CrcOfImage((APP_SIZE - 4) / 4);
      ProgramWord(CRC_ADDRESS, crc, crcWorks);
      fault := if crcWorks then FaultCodeNone else FaultCodeFlashCorruption;
    }

    method FeedChunk(chunkSize: nat) returns (crc: Bits32)
      requires Valid() && chunkSize == ChunkSize(index)
      modifies this`dr
      ensures dr == Feed(unit, old(dr), ChunkWords(flash[..], index))
      ensures crc == if index < VECTOR_TABLE_SIZE then NULL_WORD else dr
    {
      if index < VECTOR_TABLE_SIZE {
        var _ := Crc32(index / 4, chunkSize / 4);
        crc := NULL_WORD;
      } else {
        crc := Crc32(EEPROM_END + (index - VECTOR_TABLE_SIZE) / 4, chunkSize / 4);
      }
    }

    /** flash_helper_verify_flash_memory_chunk. */
    method VerifyFlashMemoryChunk() returns (res: Fault)
      requires Valid()
      modifies this`dr, this`index
      ensures Valid() && Reported(View(), res) == Chunk(unit, flash[..], old(View()))
    {
      var chunkSize := CHUNK;
      res := FaultCodeNone;
      if index == 0 {
        dr := Ones();
      }
      if index + chunkSize >= TOTAL_BYTES {
        chunkSize := TOTAL_BYTES - index;
      }
      var crc := FeedChunk(chunkSize);
      index := index + chunkSize;
      if index >= TOTAL_BYTES {
        index := 0;
        if crc != NULL_WORD {
          res := FaultCodeFlashCorruption;
        }
      }
    }
  }
}
