/**
 * Bytes and C strings as the spell checker sees them.
 *
 * A C `char` is modelled by its byte value 0..255. Whether the platform's
 * `char` is signed does not matter for the operations below: a byte at or
 * above 0x80 is negative as a signed char, fails every ASCII range test, and
 * becomes its own byte value again when cast to `unsigned char`.
 *
 * A C string is the sequence of bytes before its terminating NUL, so it never
 * contains the byte 0.
 */
module Bytes {

  type Byte = b: int | 0 <= b < 256

  /** A NUL-terminated string, without its terminator. */
  type CStr = s: seq<Byte> | 0 !in s

  predicate IsUpper(b: Byte) { 'A' as int <= b <= 'Z' as int }

  predicate IsLower(b: Byte) { 'a' as int <= b <= 'z' as int }

  predicate IsDigit(b: Byte) { '0' as int <= b <= '9' as int }

  /** scdNormalizeChar: fold ASCII upper case onto lower case. */
  function Normalize(b: Byte): (r: Byte)
    ensures !IsUpper(r)
    ensures IsUpper(b) ==> IsLower(r) && r - b == 'a' as int - 'A' as int
    ensures !IsUpper(b) ==> r == b
  {
    if IsUpper(b) then b + 0x20 else b
  }

  /** A byte allowed in a word: a-z, A-Z, 0-9 or 0x80-0xFF. */
  predicate ValidByte(b: Byte)
  {
    IsLower(b) || IsUpper(b) || IsDigit(b) || 0x80 <= b
  }

  /** The per-byte test as scdIsValid writes it, testing the extended range on the normalised byte. */
  predicate AcceptsByte(b: Byte)
  {
    IsLower(b) || IsUpper(b) || IsDigit(b) || 0x80 <= Normalize(b)
  }

  /** The test as written accepts exactly the bytes allowed in a word. */
  lemma AcceptsByteIsValidByte(b: Byte)
    ensures AcceptsByte(b) <==> ValidByte(b)
  {
  }

  /** A word is valid when each of its bytes is. */
  ghost predicate ValidWord(w: seq<Byte>)
  {
    forall i :: 0 <= i < |w| ==> ValidByte(w[i])
  }

  /**
   * scdIsValid: scan left to right and reject at the first byte outside
   * a-z, A-Z, 0-9 and 0x80-0xFF.
   */
  function IsValid(w: seq<Byte>): (ok: bool)
    ensures ok <==> ValidWord(w)
    ensures ok ==> forall i :: 0 <= i < |w| ==> w[i] != 0
  {
    if |w| == 0 then true
    else if !AcceptsByte(w[0]) then false
    else
      var ok := IsValid(w[1..]);
      assert ok ==> forall i :: 1 <= i < |w| ==> ValidByte(w[i]) by {
        if ok {
          forall i | 1 <= i < |w| ensures ValidByte(w[i]) {
            assert w[i] == w[1..][i - 1];
          }
        }
      }
      ok
  }

  /** The byte-wise normalisation of a whole string. */
  function NormWord(w: seq<Byte>): (r: seq<Byte>)
    ensures |r| == |w|
    ensures forall i :: 0 <= i < |w| ==> r[i] == Normalize(w[i])
  {
    seq(|w|, i requires 0 <= i < |w| => Normalize(w[i]))
  }

  /** A byte that is folded is one of A-Z; every other byte is a fixed point. */
  lemma NormalizeFixedPoints(b: Byte)
    ensures Normalize(b) == b <==> !IsUpper(b)
    ensures Normalize(Normalize(b)) == Normalize(b)
  {
  }

  /** Normalisation neither creates nor removes the NUL byte, and keeps validity. */
  lemma NormalizeKeepsClass(b: Byte)
    ensures Normalize(b) == 0 <==> b == 0
    ensures ValidByte(Normalize(b)) <==> ValidByte(b)
    ensures ValidByte(b) <==> (IsLower(Normalize(b)) || IsDigit(Normalize(b)) || 0x80 <= Normalize(b))
  {
  }

  /** Normalising a word twice is normalising it once. */
  lemma NormWordIdempotent(w: seq<Byte>)
    ensures NormWord(NormWord(w)) == NormWord(w)
  {
    forall i | 0 <= i < |w| ensures NormWord(NormWord(w))[i] == NormWord(w)[i] {
      NormalizeFixedPoints(w[i]);
    }
  }

  /** The normalisation of a C string is a C string. */
  lemma NormWordIsCStr(w: CStr)
    ensures 0 !in NormWord(w)
  {
    forall i | 0 <= i < |w| ensures NormWord(w)[i] != 0 {
      assert w[i] in w;
      NormalizeKeepsClass(w[i]);
    }
  }

  /** A piece of a C string is a C string. */
  lemma LemmaSliceNoNul(s: CStr, i: nat, j: nat)
    requires i <= j <= |s|
    ensures 0 !in s[i..j]
  {
    forall k | 0 <= k < j - i ensures s[i..j][k] != 0 {
      assert s[i..j][k] == s[i + k] && s[i + k] in s;
    }
  }

  /** Normalisation commutes with taking a prefix. */
  lemma NormWordPrefix(w: seq<Byte>, k: nat)
    requires k <= |w|
    ensures NormWord(w[..k]) == NormWord(w)[..k]
  {
  }
}
