/**
 The report bit codec: copying a bit field of a report into the 32-bit words
 of an element value, and back.

 A report (a sequence of bytes) and an element value (a run of words) are both
 read as one little-endian number (section 5.8 of the HID 1.11 class
 definition), so "the field" is Field(Number(report, 8), start, bits).
 */
module BitCodec {
  import opened Numbers

  function Min(a: nat, b: nat): nat {
    if a < b then a else b
  }

  /** Number of 32-bit words that hold `bits` bits. */
  function WordCount(bits: nat): nat {
    (bits + 31) / 32
  }

  function ReportField(report: seq<Byte>, start: nat, bits: nat): (f: nat)
    ensures f < Pow2(bits)
  {
    FieldBound(Number(report, 8), start, bits);
    Field(Number(report, 8), start, bits)
  }

  // ----------------------------------------------------------------- reading

  /** The byte-aligned case, which is a plain memory copy. */
  predicate CopiedByBytes(start: nat, bits: nat, signed: bool) {
    start % 8 == 0 && bits % 8 == 0 && !signed
  }

  /** The low `n` bits `v` of a 32-bit two's complement number. */
  function SignExtended(v: nat, n: nat): nat
    requires v < Pow2(n) && 0 < n <= 32
  {
    Pow2Monotone(n, 32);
    if v < Pow2(n - 1) then v else v + Pow2(32) - Pow2(n)
  }

  /** The value a word stands for when it is taken as signed. */
  function AsSigned(w: Word): int {
    if w < 0x8000_0000 then w else w - 0x1_0000_0000
  }

  /** What reading an n-bit field with contents `f` leaves in word `k`. */
  function StoredWord(old_: Word, f: nat, n: nat, copied: bool, signed: bool, k: nat): (w: Word)
    requires k < WordCount(n)
  {
    var bits := Min(32, n - 32 * k);
    Pow2Values();
    Pow2Monotone(bits, 32);
    FieldBound(f, 32 * k, bits);
    var v := Field(f, 32 * k, bits);
    if copied then
      ReplacedBound(old_, 32, 0, bits, v);
      ReplaceField(old_, 0, bits, v)
    else if signed && n < 32 then SignExtended(v, n)
    else v
  }

  function StoredWords(old_: seq<Word>, f: nat, n: nat, copied: bool, signed: bool): (s: seq<Word>)
    requires |old_| == WordCount(n)
  {
    seq(|old_|, k requires 0 <= k < |old_| => StoredWord(old_[k], f, n, copied, signed, k))
  }

  /** A piece of one report byte is a piece of the field. */
  lemma BytePiece(src: seq<Byte>, start: nat, n: nat, total: nat, k: nat)
    requires start + n <= 8 * |src| && total + k <= n && k > 0
    requires (start + total) % 8 + k <= 8
    ensures Field(src[(start + total) / 8], (start + total) % 8, k) == Field(ReportField(src, start, n), total, k)
  {
    Pow2Values();
    DigitField(src, 8, (start + total) / 8, (start + total) % 8, k);
    FieldOfField(Number(src, 8), start, n, total, k);
  }

  /** Appending the next piece of a field above the low `d` bits. */
  lemma AppendPiece(f: nat, a: nat, d: nat, k: nat)
    ensures Shl(Field(f, a + d, k), d) >= 0
    ensures Or(Field(f, a, d), Shl(Field(f, a + d, k), d)) == Field(f, a, d + k)
  {
    var word, tmp := Field(f, a, d), Field(f, a + d, k);
    FieldBound(f, a, d);
    LowOfSmall(word, d);
    OrShift(word, d, tmp);
    OrZero(tmp);
    FieldSplit(f, a, d, k);
  }

  /** Setting all bits from `n` upwards turns a negative n-bit number into a word. */
  lemma SignExtension(v: nat, n: nat)
    requires v < Pow2(n) && 0 < n <= 32
    ensures Field(v, n - 1, 1) == 1 <==> v >= Pow2(n - 1)
    ensures Shl(Pow2(32 - n) - 1, n) >= 0
    ensures v >= Pow2(n - 1) ==> Or(v, Shl(Pow2(32 - n) - 1, n)) == SignExtended(v, n)
  {
    TopBit(v, n - 1);
    Ones(32 - n, n);
    LowOfSmall(v, n);
    OrShift(v, n, Pow2(32 - n) - 1);
    OrZero(Pow2(32 - n) - 1);
  }

  lemma Ones(m: nat, n: nat)
    ensures Shl(Pow2(m) - 1, n) == Pow2(m + n) - Pow2(n)
  {
    ShlPow2(m);
    ShlShl(1, m, n);
    ShlSum(Pow2(m), 1, n);
    ShlPow2(m + n);
    ShlPow2(n);
  }

  lemma {:induction false} TopBit(v: nat, n: nat)
    requires v < Pow2(n + 1)
    ensures Field(v, n, 1) == (if v >= Pow2(n) then 1 else 0)
  {
    if n > 0 {
      TopBit(v / 2, n - 1);
    } else {
      assert Field(v, 0, 1) == v % 2 + 2 * Low(v / 2, 0);
    }
  }

  method StoreIfDifferent(dst: array<Word>, at: nat, word: Word, wasChanged: bool) returns (changed: bool)
    requires at < dst.Length
    modifies dst
    ensures dst[at] == word && forall i :: 0 <= i < dst.Length && i != at ==> dst[i] == old(dst[i])
    ensures changed == (wasChanged || dst[at] != old(dst[at]))
  {
    changed := wasChanged;
    if dst[at] != word {
      dst[at] := word;
      changed := true;
    }
  }

  /** The next (up to four) bytes of a field of whole bytes, as part of the field. */
  lemma CopiedBytes(src: seq<Byte>, from: nat, count: nat, k: nat, m: nat)
    requires from + count <= |src| && 4 * k + m <= count
    ensures Number(src[from + 4 * k..from + 4 * k + m], 8) == Field(ReportField(src, 8 * from, 8 * count), 32 * k, 8 * m)
  {
    Pow2Values();
    NumberSlice(src, 8, from + 4 * k, m);
    FieldOfField(Number(src, 8), 8 * from, 8 * count, 32 * k, 8 * m);
    assert 8 * from + 32 * k == 8 * (from + 4 * k);
  }

  lemma CopiedWord(x: Word, f: nat, count: nat, k: nat, m: nat)
    requires k < WordCount(8 * count) && m == Min(4, count - 4 * k)
    ensures ReplaceField(x, 0, 8 * m, Field(f, 32 * k, 8 * m)) == StoredWord(x, f, 8 * count, true, false, k)
  {
    assert 8 * m == Min(32, 8 * count - 32 * k);
  }

  /** memcmp and, if they differ, memcpy from report bytes to the words at `base`. */
  method CopyBytesToWords(src: seq<Byte>, from: nat, dst: array<Word>, base: nat, count: nat) returns (changed: bool)
    requires from + count <= |src| && base + WordCount(8 * count) <= dst.Length
    modifies dst
    ensures forall i :: 0 <= i < dst.Length && !(base <= i < base + WordCount(8 * count)) ==> dst[i] == old(dst[i])
    ensures forall i :: base <= i < base + WordCount(8 * count)
              ==> dst[i] == StoredWord(old(dst[i]), ReportField(src, 8 * from, 8 * count), 8 * count, true, false, i - base)
    ensures changed == (dst[..] != old(dst[..]))
  {
    changed := false;
    ghost var f := ReportField(src, 8 * from, 8 * count);
    for k := 0 to WordCount(8 * count)
      invariant forall i :: 0 <= i < dst.Length && !(base <= i < base + k) ==> dst[i] == old(dst[i])
      invariant forall i :: base <= i < base + k
                  ==> dst[i] == StoredWord(old(dst[i]), f, 8 * count, true, false, i - base)
      invariant changed == exists i :: base <= i < base + k && dst[i] != old(dst[i])
    {
      var m := Min(4, count - 4 * k);
      CopiedBytes(src, from, count, k, m);
      CopiedWord(dst[base + k], f, count, k, m);
      var v := Number(src[from + 4 * k..from + 4 * k + m], 8);
      changed := StoreIfDifferent(dst, base + k, ReplaceField(dst[base + k], 0, 8 * m, v), changed);
    }
    if exists i :: base <= i < base + WordCount(8 * count) && dst[i] != old(dst[i]) {
      ghost var i :| base <= i < base + WordCount(8 * count) && dst[i] != old(dst[i]);
      assert dst[..][i] != old(dst[..])[i];
    }
  }

  /** The word as it is stored once `total` bits have been processed. */
  function ExtendedSign(word: Word, total: nat, isFirst: bool, signExtend: bool): nat
    requires 0 < total
  {
    // 1s above the significant bits when the value is negative
    if isFirst && signExtend && total < 32 && Field(word, total - 1, 1) == 1
    then ShlSum(Pow2(32 - total) - 1, 0, total); Or(word, Shl(Pow2(32 - total) - 1, total))
    else word
  }

  lemma FlushedWord(old_: Word, f: nat, n: nat, last: nat, total: nat, signed: bool)
    requires last < WordCount(n) && total == Min(n, 32 * last + 32)
    ensures Field(f, 32 * last, total - 32 * last) < 0x1_0000_0000
    ensures ExtendedSign(Field(f, 32 * last, total - 32 * last), total, last == 0, signed)
            == StoredWord(old_, f, n, false, signed, last)
  {
    var bits := total - 32 * last;
    FieldBound(f, 32 * last, bits);
    Pow2Values();
    Pow2Monotone(bits, 32);
    SignExtension(Field(f, 32 * last, bits), bits);
  }

  /** Reads a field of a report into the words of an element value. */
  method ReadReportBits(src: seq<Byte>, dst: array<Word>, base: nat, bitsToCopy: nat,
                        startBit: nat, signExtend: bool, wasChanged: bool) returns (changed: bool)
    requires startBit + bitsToCopy <= 8 * |src|
    requires base + WordCount(bitsToCopy) <= dst.Length
    modifies dst
    ensures forall i :: 0 <= i < dst.Length && !(base <= i < base + WordCount(bitsToCopy)) ==> dst[i] == old(dst[i])
    ensures dst[base..base + WordCount(bitsToCopy)]
            == StoredWords(old(dst[base..base + WordCount(bitsToCopy)]), ReportField(src, startBit, bitsToCopy),
                           bitsToCopy, CopiedByBytes(startBit, bitsToCopy, signExtend), signExtend)
    ensures changed == ((wasChanged && !CopiedByBytes(startBit, bitsToCopy, signExtend))
                        || dst[..] != old(dst[..]))
  {
    ghost var n := WordCount(bitsToCopy);
    ghost var was := dst[base..base + n];
    if startBit % 8 == 0 && bitsToCopy % 8 == 0 && !signExtend {
      changed := CopyBytesToWords(src, startBit / 8, dst, base, bitsToCopy / 8);
    } else {
      changed := ReadByPieces(src, dst, base, bitsToCopy, startBit, signExtend, wasChanged);
    }
    forall k | 0 <= k < n
      ensures dst[base..base + n][k]
              == StoredWord(was[k], ReportField(src, startBit, bitsToCopy), bitsToCopy,
                            CopiedByBytes(startBit, bitsToCopy, signExtend), signExtend, k)
    {
      assert dst[base..base + n][k] == dst[base + k] && was[k] == old(dst[base + k]);
    }
  }

  /** Takes as many bits as fit one source byte and one destination word. */
  method AppendNextPiece(src: seq<Byte>, startBit: nat, bitsToCopy: nat, total: nat, word: nat)
    returns (appended: nat, processed: nat)
    requires startBit + bitsToCopy <= 8 * |src| && total < bitsToCopy
    requires word == Field(ReportField(src, startBit, bitsToCopy), total - total % 32, total % 32)
    ensures 0 < processed && total + processed <= bitsToCopy && total % 32 + processed <= 32
    ensures appended == Field(ReportField(src, startBit, bitsToCopy), total - total % 32, total % 32 + processed)
  {
    var srcOffset, srcShift, dstShift := (startBit + total) / 8, (startBit + total) % 8, total % 32;
    processed := Min(bitsToCopy - total, Min(8 - srcShift, 32 - dstShift));
    var tmp := Field(src[srcOffset], srcShift, processed);
    BytePiece(src, startBit, bitsToCopy, total, processed);
    AppendPiece(ReportField(src, startBit, bitsToCopy), total - dstShift, dstShift, processed);
    appended := Or(word, Shl(tmp, dstShift));
  }

  /** The bit loop: pieces that stay inside one byte and one word. */
  method ReadByPieces(src: seq<Byte>, dst: array<Word>, base: nat, bitsToCopy: nat,
                      startBit: nat, signExtend: bool, wasChanged: bool) returns (changed: bool)
    requires startBit + bitsToCopy <= 8 * |src|
    requires base + WordCount(bitsToCopy) <= dst.Length
    modifies dst
    ensures forall i :: 0 <= i < dst.Length && !(base <= i < base + WordCount(bitsToCopy)) ==> dst[i] == old(dst[i])
    ensures forall i :: base <= i < base + WordCount(bitsToCopy)
              ==> dst[i] == StoredWord(old(dst[i]), ReportField(src, startBit, bitsToCopy), bitsToCopy, false, signExtend, i - base)
    ensures changed == (wasChanged || dst[..] != old(dst[..]))
  {
    changed := wasChanged;
    ghost var f := ReportField(src, startBit, bitsToCopy);
    var left, total, word, last := bitsToCopy, 0, 0, 0;
    while left > 0
      invariant total + left == bitsToCopy && last <= WordCount(bitsToCopy)
      invariant left > 0 ==> last == total / 32 && word == Field(f, 32 * last, total % 32)
      invariant left == 0 ==> last == WordCount(bitsToCopy)
      invariant forall i :: 0 <= i < dst.Length && !(base <= i < base + last) ==> dst[i] == old(dst[i])
      invariant forall i :: base <= i < base + last
                  ==> dst[i] == StoredWord(old(dst[i]), f, bitsToCopy, false, signExtend, i - base)
      invariant changed == (wasChanged || exists i :: base <= i < base + last && dst[i] != old(dst[i]))
    {
      var processed;
      word, processed := AppendNextPiece(src, startBit, bitsToCopy, total, word);
      total := total + processed;
      left := left - processed;
      if total / 32 != last || left == 0 {
        FlushedWord(old(dst[base + last]), f, bitsToCopy, last, total, signExtend);
        word := ExtendedSign(word, total, last == 0, signExtend);
        changed := StoreIfDifferent(dst, base + last, word, changed);
        word, last := 0, last + 1;
      }
    }
    if exists i :: base <= i < base + last && dst[i] != old(dst[i]) {
      ghost var i :| base <= i < base + last && dst[i] != old(dst[i]);
      assert dst[..][i] != old(dst[..])[i];
    }
  }

  // ----------------------------------------------------------------- meaning

  lemma StoredWordsAreDigits(old_: seq<Word>, f: nat, n: nat, copied: bool, signed: bool)
    requires |old_| == WordCount(n)
    ensures Digits(StoredWords(old_, f, n, copied, signed), 32)
  {
    Pow2Values();
  }

  /** Unsigned fields are stored as the little-endian words of their value. */
  lemma {:induction false} StoredNumber(old_: seq<Word>, f: nat, n: nat)
    requires |old_| == WordCount(n) && f < Pow2(n)
    ensures Number(StoredWords(old_, f, n, false, false), 32) == f
  {
    StoredFrom(StoredWords(old_, f, n, false, false), old_, f, n, 0);
    LowOfSmall(f, n);
  }

  lemma {:induction false} StoredFrom(s: seq<Word>, old_: seq<Word>, f: nat, n: nat, k: nat)
    requires |old_| == WordCount(n) && s == StoredWords(old_, f, n, false, false) && k <= |s|
    ensures Number(s[k..], 32) == (if 32 * k <= n then Field(f, 32 * k, n - 32 * k) else 0)
    decreases |s| - k
  {
    if k < |s| {
      StoredFrom(s, old_, f, n, k + 1);
      assert s[k..][1..] == s[k + 1..];
      if n >= 32 * k + 32 {
        FieldSplit(f, 32 * k, 32, n - 32 * k - 32);
      } else {
        ShlSum(0, 0, 32);
      }
    }
  }

  /** A signed field narrower than a word is stored as its two's complement value. */
  lemma StoredSigned(old_: Word, f: nat, n: nat)
    requires 0 < n < 32 && f < Pow2(n)
    ensures AsSigned(StoredWord(old_, f, n, false, true, 0)) == (if f < Pow2(n - 1) then f else f - Pow2(n))
  {
    LowOfSmall(f, n);
    Pow2Values();
    Pow2Monotone(n, 31);
  }

  /** A copied word agrees with a stored one exactly when its unused bits were zero. */
  lemma CopiedWordAgrees(x: Word, f: nat, n: nat, k: nat)
    requires k < WordCount(n)
    ensures StoredWord(x, f, n, true, false, k) == StoredWord(x, f, n, false, false, k) <==> Above(x, Min(32, n - 32 * k)) == 0
  {
    var bits := Min(32, n - 32 * k);
    FieldBound(f, 32 * k, bits);
    ReplacedParts(x, 0, bits, Field(f, 32 * k, bits));
    LowOfSmall(Field(f, 32 * k, bits), bits);
    ShlSum(0, 0, bits);
  }

  /** The memory-copy path agrees with the bit loop exactly when the unused
      high bits of the last destination word are zero. */
  lemma CopyAgreesWithLoop(old_: seq<Word>, f: nat, n: nat)
    requires |old_| == WordCount(n) && n > 0
    ensures StoredWords(old_, f, n, true, false) == StoredWords(old_, f, n, false, false)
            <==> Above(old_[|old_| - 1], n - 32 * (|old_| - 1)) == 0
  {
    var a, b := StoredWords(old_, f, n, true, false), StoredWords(old_, f, n, false, false);
    var last := |old_| - 1;
    forall k | 0 <= k < last ensures a[k] == b[k] {
      WholeWordAgrees(old_[k], f, n, k);
    }
    CopiedWordAgrees(old_[last], f, n, last);
    LastDecides(a, b, last);
  }

  lemma WholeWordAgrees(x: Word, f: nat, n: nat, k: nat)
    requires 32 * k + 32 <= n
    ensures StoredWord(x, f, n, true, false, k) == StoredWord(x, f, n, false, false, k)
  {
    Pow2Values();
    LowOfSmall(x, 32);
    CopiedWordAgrees(x, f, n, k);
  }

  lemma LastDecides(a: seq<Word>, b: seq<Word>, last: nat)
    requires |a| == |b| == last + 1 && forall k :: 0 <= k < last ==> a[k] == b[k]
    ensures a == b <==> a[last] == b[last]
  {
    assert a[last] == b[last] ==> a == b;
  }

  // ----------------------------------------------------------------- writing

  /** Shapes for which the writer copies whole bytes from the wrong place: the
      field starts inside a byte, runs past it, and ends on a byte boundary. */
  predicate MisWritten(start: nat, bits: nat) {
    start % 8 != 0 && (start + bits) % 8 == 0 && bits > 8 - start % 8
  }

  /** The field left by writing value `v` over a field that held `f`. */
  function WrittenField(f: nat, v: nat, start: nat, n: nat): nat {
    if start % 8 == 0 && n % 8 == 0 then Low(v, n)
    else if MisWritten(start, n) then
      var h := 8 - start % 8;
      ShlSum(Low(v, n - h), 0, h);
      Or(Low(f, h), Low(v, h)) + Shl(Low(v, n - h), h)
    else Or(f, Low(v, n))
  }

  lemma WrittenBound(f: nat, v: nat, start: nat, n: nat)
    requires f < Pow2(n)
    ensures WrittenField(f, v, start, n) < Pow2(n)
  {
    Parts(v, n);
    OrBound(f, Low(v, n), n);
    if MisWritten(start, n) {
      var h := 8 - start % 8;
      Parts(v, h);
      Parts(f, h);
      Parts(v, n - h);
      OrBound(Low(f, h), Low(v, h), h);
      ShlBound(Low(v, n - h), n - h, h);
    }
  }

  lemma OrSplit(a: nat, b: nat, p: nat, k: nat)
    ensures Or(Low(a, p + k), Low(b, p + k)) == Or(Low(a, p), Low(b, p)) + Shl(Or(Field(a, p, k), Field(b, p, k)), p)
  {
    OrParts(a, b, p + k);
    LowSplit(Or(a, b), p, k);
    OrParts(a, b, p);
    OrParts(Above(a, p), Above(b, p), k);
  }

  lemma NextByteCopied(n0: nat, v: nat, s: nat, p: nat)
    ensures ReplaceField(ReplaceField(n0, s, p, Low(v, p)), s + p, 8, Field(v, p, 8)) == ReplaceField(n0, s, p + 8, Low(v, p + 8))
  {
    Parts(v, p);
    ReplacedTwice(n0, s, p, 8, Low(v, p), Field(v, p, 8));
    LowSplit(v, p, 8);
  }

  lemma ByteOfValue(src: seq<Word>, i: nat)
    requires i < 4 * |src|
    ensures Field(src[i / 4], 8 * (i % 4), 8) == Field(Number(src, 32), 8 * i, 8)
    ensures Field(src[i / 4], 8 * (i % 4), 8) < 0x100
  {
    Pow2Values();
    DigitField(src, 32, i / 4, 8 * (i % 4), 8);
    FieldBound(src[i / 4], 8 * (i % 4), 8);
    assert 32 * (i / 4) + 8 * (i % 4) == 8 * i;
  }

  /** memcpy from the words of a value to report bytes. */
  method CopyWordsToBytes(src: seq<Word>, dst: array<Byte>, at: nat, count: nat)
    requires at + count <= dst.Length && count <= 4 * |src|
    modifies dst
    ensures Number(dst[..], 8) == ReplaceField(old(Number(dst[..], 8)), 8 * at, 8 * count, Low(Number(src, 32), 8 * count))
  {
    ghost var n0, v := Number(dst[..], 8), Number(src, 32);
    ReplacedBySelf(n0, 8 * at, 0);
    for i := 0 to count
      invariant Number(dst[..], 8) == ReplaceField(n0, 8 * at, 8 * i, Low(v, 8 * i))
    {
      ByteOfValue(src, i);
      var byte: Byte := Field(src[i / 4], 8 * (i % 4), 8);
      ghost var before := dst[..];
      StoreByte(before, at + i, byte);
      dst[at + i] := byte;
      assert dst[..] == before[at + i := byte];
      NextByteCopied(n0, v, 8 * at, 8 * i);
    }
  }

  lemma StoreByte(bytes: seq<Byte>, at: nat, byte: Byte)
    requires at < |bytes|
    ensures Number(bytes[at := byte], 8) == ReplaceField(Number(bytes, 8), 8 * at, 8, byte)
  {
    Pow2Values();
    DigitReplaced(bytes, 8, at, 0, 8, byte);
    LowOfSmall(bytes[at], 8);
    ShlSum(0, 0, 8);
  }

  /** Or-ing one piece of the value into one report byte. */
  lemma OrByte(bytes: seq<Byte>, o: nat, sh: nat, k: nat, tmp: nat)
    requires o < |bytes| && sh + k <= 8 && tmp < Pow2(k)
    ensures Shl(tmp, sh) >= 0 && Or(bytes[o], Shl(tmp, sh)) < 0x100
    ensures Number(bytes[o := Or(bytes[o], Shl(tmp, sh))], 8)
            == ReplaceField(Number(bytes, 8), 8 * o + sh, k, Or(Field(Number(bytes, 8), 8 * o + sh, k), tmp))
  {
    Pow2Values();
    OrShifted(bytes[o], sh, k, tmp);
    FieldBound(bytes[o], sh, k);
    OrBound(Field(bytes[o], sh, k), tmp, k);
    ReplacedBound(bytes[o], 8, sh, k, Or(Field(bytes[o], sh, k), tmp));
    DigitReplaced(bytes, 8, o, sh, k, Or(Field(bytes[o], sh, k), tmp));
    DigitField(bytes, 8, o, sh, k);
  }

  /** What the report looks like once `p` bits have been or-ed in. */
  function Written(n0: nat, v: nat, start: nat, p: nat): nat {
    ReplaceField(n0, start, p, Or(Field(n0, start, p), Low(v, p)))
  }

  lemma WriteStep(n0: nat, v: nat, start: nat, p: nat, k: nat)
    ensures var x := Written(n0, v, start, p);
      ReplaceField(x, start + p, k, Or(Field(x, start + p, k), Field(v, p, k))) == Written(n0, v, start, p + k)
  {
    var f, g := Field(n0, start, p), Low(v, p);
    FieldBound(n0, start, p);
    Parts(v, p);
    OrBound(f, g, p);
    ReplacedElsewhere(n0, start, p, Or(f, g), start + p, k);
    var h := Or(Field(n0, start + p, k), Field(v, p, k));
    ReplacedTwice(n0, start, p, k, Or(f, g), h);
    OrSplit(Above(n0, start), v, p, k);
    AboveAbove(n0, start, p);
  }

  /** The memory copy in mid-loop starts again at the first byte of the value. */
  lemma MisWrittenTail(n0: nat, v: nat, start: nat, n: nat)
    requires MisWritten(start, n)
    ensures var h := 8 - start % 8;
      ReplaceField(Written(n0, v, start, h), start + h, n - h, Low(v, n - h))
      == ReplaceField(n0, start, n, WrittenField(Field(n0, start, n), v, start, n))
  {
    var h := 8 - start % 8;
    FieldBound(n0, start, h);
    Parts(v, h);
    OrBound(Field(n0, start, h), Low(v, h), h);
    ReplacedTwice(n0, start, h, n - h, Or(Field(n0, start, h), Low(v, h)), Low(v, n - h));
    InsideLow(Above(n0, start), n, h);
  }

  /** Writes the low `bitsToCopy` bits of a value into a report. */
  method WriteReportBits(src: seq<Word>, dst: array<Byte>, bitsToCopy: nat, startBit: nat)
    requires startBit + bitsToCopy <= 8 * dst.Length && WordCount(bitsToCopy) <= |src|
    modifies dst
    ensures Number(dst[..], 8)
            == ReplaceField(old(Number(dst[..], 8)), startBit, bitsToCopy,
                            WrittenField(old(ReportField(dst[..], startBit, bitsToCopy)), Number(src, 32), startBit, bitsToCopy))
  {
    if startBit % 8 == 0 && bitsToCopy % 8 == 0 {
      CopyWordsToBytes(src, dst, startBit / 8, bitsToCopy / 8);
    } else {
      WriteByPieces(src, dst, bitsToCopy, startBit);
    }
  }

  /** The bit loop, with its memory copy in the middle. */
  method WriteByPieces(src: seq<Word>, dst: array<Byte>, bitsToCopy: nat, startBit: nat)
    requires startBit + bitsToCopy <= 8 * dst.Length && WordCount(bitsToCopy) <= |src|
    requires !(startBit % 8 == 0 && bitsToCopy % 8 == 0)
    modifies dst
    ensures Number(dst[..], 8)
            == ReplaceField(old(Number(dst[..], 8)), startBit, bitsToCopy,
                            WrittenField(old(ReportField(dst[..], startBit, bitsToCopy)), Number(src, 32), startBit, bitsToCopy))
  {
    hide Number, Low, Above, Shl, Or, Pow2;
    ghost var n0, v := Number(dst[..], 8), Number(src, 32);
    NothingWritten(n0, v, startBit);
    var p := 0;
    while p < bitsToCopy
      invariant p <= bitsToCopy
      invariant MisWritten(startBit, bitsToCopy) ==> p == 0 || p == 8 - startBit % 8
      invariant Number(dst[..], 8) == Written(n0, v, startBit, p)
    {
      if (startBit + p) % 8 == 0 && (bitsToCopy - p) % 8 == 0 {
        // the source offset is still the first word, whatever `p` is
        MidLoopCopy(startBit, bitsToCopy, p);
        MisWrittenTail(n0, v, startBit, bitsToCopy);
        CopyWordsToBytes(src, dst, (startBit + p) / 8, (bitsToCopy - p) / 8);
        return;
      }
      var k := WritePiece(src, dst, bitsToCopy, startBit, p);
      WriteStep(n0, v, startBit, p, k);
      FirstPiece(startBit, bitsToCopy, p, k);
      p := p + k;
    }
  }

  lemma NothingWritten(n0: nat, v: nat, start: nat)
    ensures Written(n0, v, start, 0) == n0
  {
    OrZero(0);
    ReplacedBySelf(n0, start, 0);
  }

  /** The copy in the middle of the loop is reached in mis-written shapes only. */
  lemma MidLoopCopy(start: nat, n: nat, p: nat)
    requires p < n && (start + p) % 8 == 0 && (n - p) % 8 == 0
    requires !(start % 8 == 0 && n % 8 == 0)
    requires MisWritten(start, n) ==> p == 0 || p == 8 - start % 8
    ensures MisWritten(start, n) && p == 8 - start % 8
    ensures 8 * ((start + p) / 8) == start + p && 8 * ((n - p) / 8) == n - p
  {
    var q, r := (start + p) / 8, (n - p) / 8;
    assert start + p == 8 * q && n - p == 8 * r && start + n == 8 * (q + r);
  }

  /** In a mis-written shape the first piece ends at the first byte boundary. */
  lemma FirstPiece(start: nat, n: nat, p: nat, k: nat)
    requires p < n && !((start + p) % 8 == 0 && (n - p) % 8 == 0)
    requires MisWritten(start, n) ==> p == 0 || p == 8 - start % 8
    requires k == Min(n - p, Min(8 - (start + p) % 8, 32 - p % 32))
    ensures MisWritten(start, n) ==> p + k == 8 - start % 8
  {
    if MisWritten(start, n) {
      AtByteBoundary(start, n);
    }
  }

  lemma AtByteBoundary(start: nat, n: nat)
    requires MisWritten(start, n)
    ensures (start + (8 - start % 8)) % 8 == 0 && (n - (8 - start % 8)) % 8 == 0
  {
    var q, r := (start + n) / 8, start / 8;
    assert start + n == 8 * q && start == 8 * r + start % 8;
    assert n - (8 - start % 8) == 8 * (q - r - 1);
  }

  /** A piece of one word is a piece of the value. */
  lemma WordPiece(src: seq<Word>, p: nat, k: nat)
    requires p < 32 * |src| && p % 32 + k <= 32
    ensures Field(src[p / 32], p % 32, k) == Field(Number(src, 32), p, k)
    ensures Field(src[p / 32], p % 32, k) < Pow2(k)
  {
    Pow2Values();
    DigitField(src, 32, p / 32, p % 32, k);
    FieldBound(src[p / 32], p % 32, k);
  }

  method WritePiece(src: seq<Word>, dst: array<Byte>, bitsToCopy: nat, startBit: nat, p: nat) returns (k: nat)
    requires p < bitsToCopy && startBit + bitsToCopy <= 8 * dst.Length && WordCount(bitsToCopy) <= |src|
    modifies dst
    ensures k == Min(bitsToCopy - p, Min(8 - (startBit + p) % 8, 32 - p % 32))
    ensures var x := old(Number(dst[..], 8));
      Number(dst[..], 8) == ReplaceField(x, startBit + p, k, Or(Field(x, startBit + p, k), Field(Number(src, 32), p, k)))
  {
    var dstOffset, dstShift, srcOffset, srcShift := (startBit + p) / 8, (startBit + p) % 8, p / 32, p % 32;
    k := Min(bitsToCopy - p, Min(8 - dstShift, 32 - srcShift));
    var tmp := Field(src[srcOffset], srcShift, k);
    WordPiece(src, p, k);
    OrByte(dst[..], dstOffset, dstShift, k, tmp);
    var byte: Byte := Or(dst[dstOffset], Shl(tmp, dstShift));
    dst[dstOffset] := byte;
    assert dst[..] == old(dst[..])[dstOffset := byte];
  }

  // ------------------------------------------------------- write, then read

  /** Fields outside the written one keep their contents. */
  lemma WriteFrame(before: nat, v: nat, start: nat, n: nat, a: nat, b: nat)
    requires Apart(a, b, start, n)
    ensures var after := ReplaceField(before, start, n, WrittenField(Field(before, start, n), v, start, n));
      Field(after, a, b) == Field(before, a, b) && Field(after, start, n) == WrittenField(Field(before, start, n), v, start, n)
  {
    FieldBound(before, start, n);
    WrittenBound(Field(before, start, n), v, start, n);
    ReplacedElsewhere(before, start, n, WrittenField(Field(before, start, n), v, start, n), a, b);
    ReplacedParts(before, start, n, WrittenField(Field(before, start, n), v, start, n));
  }

  /** Writing over a zeroed field is exact, for every value, just when the
      shape is not one of the mis-written ones. */
  lemma WriteExactIffShape(start: nat, n: nat)
    ensures (forall v: nat :: WrittenField(0, v, start, n) == Low(v, n)) <==> !MisWritten(start, n)
  {
    if MisWritten(start, n) {
      MisWrittenOne(start, n);
    } else {
      forall v: nat ensures WrittenField(0, v, start, n) == Low(v, n) {
        OrZero(Low(v, n));
      }
    }
  }

  function WrittenOver(before: nat, v: nat, start: nat, n: nat): nat {
    ReplaceField(before, start, n, WrittenField(Field(before, start, n), v, start, n))
  }

  /** What is written over a zeroed field of any width, across any number of
      words, is read back modulo 2^n, just when the shape is not mis-written. */
  lemma WriteThenReadIff(before: nat, start: nat, n: nat, old_: seq<Word>)
    requires Field(before, start, n) == 0 && |old_| == WordCount(n)
    ensures (forall v: nat :: Number(StoredWords(old_, Field(WrittenOver(before, v, start, n), start, n), n, false, false), 32) == Low(v, n))
            <==> !MisWritten(start, n)
  {
    forall v: nat
      ensures Number(StoredWords(old_, Field(WrittenOver(before, v, start, n), start, n), n, false, false), 32)
              == WrittenField(0, v, start, n)
    {
      WriteFrame(before, v, start, n, start + n, 0);
      FieldBound(before, start, n);
      WrittenBound(0, v, start, n);
      StoredNumber(old_, WrittenField(0, v, start, n), n);
    }
    WriteExactIffShape(start, n);
    if MisWritten(start, n) {
      MisWrittenOne(start, n);
      assert WrittenField(0, 1, start, n) != Low(1, n);
      assert Number(StoredWords(old_, Field(WrittenOver(before, 1, start, n), start, n), n, false, false), 32) != Low(1, n);
    }
  }

  /** The value 1 is the concrete value that a mis-written shape gets wrong. */
  lemma MisWrittenOne(start: nat, n: nat)
    requires MisWritten(start, n)
    ensures WrittenField(0, 1, start, n) == 1 + Pow2(8 - start % 8) && Low(1, n) == 1
  {
    var h := 8 - start % 8;
    LowOfOne(n);
    LowOfOne(h);
    LowOfOne(n - h);
    LowZero(h);
    OrZero(1);
    ShlPow2(h);
  }

  lemma LowOfOne(n: nat)
    requires n > 0
    ensures Low(1, n) == 1
  {
    LowZero(n - 1);
    assert Low(1, n) == 1 + 2 * Low(0, n - 1);
  }

  /** For one value, a mis-written shape still comes out right exactly when
      the value repeats with the period at which the copy restarted. */
  lemma MisWrittenValue(v: nat, start: nat, n: nat)
    requires MisWritten(start, n)
    ensures WrittenField(0, v, start, n) == Low(v, n) <==> Low(v, n - (8 - start % 8)) == Field(v, 8 - start % 8, n - (8 - start % 8))
  {
    var h := 8 - start % 8;
    LowZero(h);
    OrZero(Low(v, h));
    LowSplit(v, h, n - h);
    ShlInjective(Low(v, n - h), Field(v, h, n - h), h);
  }

  lemma {:induction false} ShlInjective(a: nat, b: nat, n: nat)
    ensures Shl(a, n) == Shl(b, n) <==> a == b
  {
    if n > 0 {
      ShlInjective(a, b, n - 1);
    }
  }
}
