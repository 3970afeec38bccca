/** File names of cache entries: `keyed_name` of gsym-cache/src/layout.rs and the
    directory scan of gsym-cache/src/maintenance.rs that reads them back. */
module Naming {
  import opened Words
  import opened Wrappers
  import opened Population

  const MAX_BUILD_ID_LEN: nat := 126
  const SLASH: uint8 := 0x2f

  function HexDigit(nibble: nat): (digit: uint8)
    requires nibble < 16
  {
    if nibble < 10 then 0x30 + nibble else 0x61 + (nibble - 10)
  }

  /** `hex_nibble` also takes upper-case digits. */
  function HexNibble(digit: uint8): (nibble: Option<nat>)
    ensures nibble.Some? ==> nibble.value < 16
  {
    if 0x30 <= digit <= 0x39 then Some(digit - 0x30)
    else if 0x61 <= digit <= 0x66 then Some(digit - 0x61 + 10)
    else if 0x41 <= digit <= 0x46 then Some(digit - 0x41 + 10)
    else None
  }

  predicate IsLowerHex(s: seq<uint8>) {
    forall digit :: digit in s ==> 0x30 <= digit <= 0x39 || 0x61 <= digit <= 0x66
  }

  function HexPair(b: uint8): (pair: seq<uint8>)
    ensures |pair| == 2
  {
    [HexDigit(b / 16), HexDigit(b % 16)]
  }

  function Hex(bytes: seq<uint8>): (digits: seq<uint8>)
    ensures |digits| == 2 * |bytes|
  {
    if bytes == [] then [] else HexPair(bytes[0]) + Hex(bytes[1..])
  }

  /** `decode_build_id_into`: as many bytes as there are pairs of digits. */
  function DecodeHex(digits: seq<uint8>): (bytes: Option<seq<uint8>>)
    ensures bytes.Some? ==> 2 * |bytes.value| == |digits|
  {
    if digits == [] then Some([])
    else if |digits| == 1 then None
    else
      match (HexNibble(digits[0]), HexNibble(digits[1]), DecodeHex(digits[2..]))
      case (Some(high), Some(low), Some(rest)) => Some([high * 16 + low] + rest)
      case _ => None
  }

  /** Directory, slash and file name of an entry. */
  function KeyedName(id: BuildIdBytes, extension: seq<uint8>): seq<uint8>
    requires id != []
  {
    HexPair(id[0]) + [SLASH] + Hex(id[1..]) + extension
  }

  /** What a scan makes of a file: the directory must be two lower-case digits, and the
      name lower-case digits before the extension, no more than an identifier holds. */
  function Recognized(directory: seq<uint8>, name: seq<uint8>, extension: seq<uint8>): Option<BuildIdBytes> {
    if |directory| != 2 || !IsLowerHex(directory) then None
    else if |name| < |extension| || name[|name| - |extension|..] != extension then None
    else
      var digits := name[..|name| - |extension|];
      if !IsLowerHex(digits) then None
      else if (2 + |digits|) % 2 != 0 || (2 + |digits|) / 2 > MAX_BUILD_ID_LEN then None
      else DecodeHex(directory + digits)
  }

  lemma PairDecodes(b: uint8)
    ensures HexNibble(HexPair(b)[0]) == Some(b / 16) && HexNibble(HexPair(b)[1]) == Some(b % 16)
    ensures IsLowerHex(HexPair(b))
  {
  }

  /** A lower-case digit is the one its value is written with. */
  lemma PairRestored(high: uint8, low: uint8)
    requires IsLowerHex([high, low])
    ensures HexNibble(high).Some? && HexNibble(low).Some?
    ensures HexPair(HexNibble(high).value * 16 + HexNibble(low).value) == [high, low]
  {
    assert high in [high, low] && low in [high, low];
  }

  lemma DecodeNext(digits: seq<uint8>)
    requires |digits| >= 2
    ensures DecodeHex(digits) ==
      match (HexNibble(digits[0]), HexNibble(digits[1]), DecodeHex(digits[2..]))
      case (Some(high), Some(low), Some(rest)) => Some([high * 16 + low] + rest)
      case _ => None
  {
  }

  lemma {:induction false} HexDecodes(bytes: seq<uint8>)
    ensures DecodeHex(Hex(bytes)) == Some(bytes)
    ensures IsLowerHex(Hex(bytes))
  {
    hide HexPair, HexNibble, DecodeHex;
    if bytes == [] {
      NothingDecodes();
    } else {
      PairDecodes(bytes[0]);
      HexDecodes(bytes[1..]);
      var digits := Hex(bytes);
      assert digits[0] == HexPair(bytes[0])[0] && digits[1] == HexPair(bytes[0])[1] && digits[2..] == Hex(bytes[1..]);
      DecodeNext(digits);
      assert bytes == [bytes[0]] + bytes[1..];
    }
  }

  lemma NothingDecodes()
    ensures DecodeHex([]) == Some([])
  {
  }

  lemma LowerHexSplits(digits: seq<uint8>)
    requires IsLowerHex(digits) && |digits| >= 2
    ensures IsLowerHex([digits[0], digits[1]]) && IsLowerHex(digits[2..])
  {
    assert digits[0] in digits && digits[1] in digits;
    assert forall digit :: digit in digits[2..] ==> digit in digits;
  }

  /** Lower-case digits are those the identifier is written in. */
  lemma {:induction false} DecodesFromHex(digits: seq<uint8>)
    requires IsLowerHex(digits) && DecodeHex(digits).Some?
    ensures Hex(DecodeHex(digits).value) == digits
    decreases |digits|
  {
    hide HexPair, HexNibble, IsLowerHex, DecodeHex;
    if |digits| >= 2 {
      DecodeNext(digits);
      LowerHexSplits(digits);
      PairRestored(digits[0], digits[1]);
      DecodesFromHex(digits[2..]);
      var bytes := DecodeHex(digits).value;
      assert bytes[1..] == DecodeHex(digits[2..]).value;
      assert digits == [digits[0], digits[1]] + digits[2..];
    }
  }

  /** A file is taken for the entry of an identifier exactly when it has the name that
      entry is stored under, so no two identifiers share a file and none is missed. */
  lemma NamedIsRecognized(directory: seq<uint8>, name: seq<uint8>, extension: seq<uint8>, id: BuildIdBytes)
    requires |directory| == 2 && 1 <= |id| <= MAX_BUILD_ID_LEN
    ensures Recognized(directory, name, extension) == Some(id) <==> directory + [SLASH] + name == KeyedName(id, extension)
  {
    hide HexPair, DecodeHex, IsLowerHex;
    HexDecodes(id);
    assert id == [id[0]] + id[1..];
    HexStarts(id);
    if directory + [SLASH] + name == KeyedName(id, extension) {
      var whole := directory + [SLASH] + name;
      assert directory == whole[..2] && name == whole[3..];
      assert directory == HexPair(id[0]) && name == Hex(id[1..]) + extension;
      assert name[..|name| - |extension|] == Hex(id[1..]) && name[|name| - |extension|..] == extension;
    }
    if Recognized(directory, name, extension) == Some(id) {
      var digits := name[..|name| - |extension|];
      LowerHexJoins(directory, digits);
      DecodesFromHex(directory + digits);
      assert (directory + digits)[..2] == directory && (directory + digits)[2..] == digits;
      assert name == digits + extension;
    }
  }

  lemma HexStarts(id: BuildIdBytes)
    requires id != []
    ensures Hex(id) == HexPair(id[0]) + Hex(id[1..]) && Hex(id)[..2] == HexPair(id[0]) && Hex(id)[2..] == Hex(id[1..])
    ensures IsLowerHex(HexPair(id[0])) && IsLowerHex(Hex(id[1..]))
  {
    HexDecodes(id[1..]);
    PairDecodes(id[0]);
  }

  lemma LowerHexJoins(a: seq<uint8>, b: seq<uint8>)
    requires IsLowerHex(a) && IsLowerHex(b)
    ensures IsLowerHex(a + b)
  {
  }

  method WritePair(b: uint8, key: array<uint8>, at: nat)
    requires at + 2 <= key.Length
    modifies key
    ensures key[..at] == old(key[..at]) && key[at..at + 2] == HexPair(b) && key[at + 2..] == old(key[at + 2..])
  {
    hide HexDigit;
    key[at] := HexDigit(b / 16);
    key[at + 1] := HexDigit(b % 16);
  }

  method FillHex(bytes: seq<uint8>, key: array<uint8>, at: nat)
    requires at + 2 * |bytes| <= key.Length
    modifies key
    ensures key[..at + 2 * |bytes|] == old(key[..at]) + Hex(bytes) && key[at + 2 * |bytes|..] == old(key[at + 2 * |bytes|..])
  {
    hide HexPair, Hex;
    HexOfNothing();
    for k := 0 to |bytes|
      invariant key[..at + 2 * k] == old(key[..at]) + Hex(bytes[..k])
      invariant key[at + 2 * k..] == old(key[at + 2 * k..])
    {
      HexAppend(bytes[..k], bytes[k]);
      assert bytes[..k + 1] == bytes[..k] + [bytes[k]];
      ghost var middle := key[..];
      WritePair(bytes[k], key, at + 2 * k);
      assert key[..at + 2 * (k + 1)] == key[..at + 2 * k] + key[at + 2 * k..at + 2 * k + 2];
      assert old(key[at + 2 * k..])[2..] == old(key[at + 2 * (k + 1)..]);
      assert middle[at + 2 * k..][2..] == middle[at + 2 * k + 2..];
    }
    assert bytes[..|bytes|] == bytes;
  }

  lemma HexOfNothing()
    ensures Hex([]) == []
  {
  }

  method FillBytes(bytes: seq<uint8>, key: array<uint8>, at: nat)
    requires at + |bytes| <= key.Length
    modifies key
    ensures key[..at + |bytes|] == old(key[..at]) + bytes && key[at + |bytes|..] == old(key[at + |bytes|..])
  {
    for k := 0 to |bytes|
      invariant key[..at + k] == old(key[..at]) + bytes[..k]
      invariant key[at + k..] == old(key[at + k..])
    {
      key[at + k] := bytes[k];
      assert key[..at + k + 1] == key[..at + k] + [bytes[k]];
      assert old(key[at + k..])[1..] == old(key[at + k + 1..]);
    }
    assert bytes[..|bytes|] == bytes;
  }

  /** `keyed_name`: the buffer is filled in place. */
  method FillKeyedName(id: BuildIdBytes, extension: seq<uint8>, key: array<uint8>) returns (length: nat)
    requires id != [] && 1 + 2 * |id| + |extension| <= key.Length
    modifies key
    ensures length == |KeyedName(id, extension)|
    ensures key[..length] == KeyedName(id, extension) && key[length..] == old(key[length..])
  {
    hide HexPair, Hex;
    length := 1 + 2 * |id| + |extension|;
    ghost var before := key[..];
    WritePair(id[0], key, 0);
    assert key[..2] == key[0..2];
    LaterSuffix(before, key[..], 2, length);
    FillBytes([SLASH], key, 2);
    LaterSuffix(before, key[..], 3, length);
    FillHex(id[1..], key, 3);
    LaterSuffix(before, key[..], 1 + 2 * |id|, length);
    FillBytes(extension, key, 1 + 2 * |id|);
  }

  lemma LaterSuffix(before: seq<uint8>, after: seq<uint8>, at: nat, later: nat)
    requires at <= later <= |before| == |after|
    ensures before[at..] == after[at..] ==> before[later..] == after[later..]
  {
    assert before[later..] == before[at..][later - at..] && after[later..] == after[at..][later - at..];
  }

  lemma {:induction false} HexAppend(bytes: seq<uint8>, b: uint8)
    ensures Hex(bytes + [b]) == Hex(bytes) + HexPair(b)
  {
    hide HexPair;
    if bytes == [] {
      assert bytes + [b] == [b] && [b][1..] == [];
    } else {
      HexAppend(bytes[1..], b);
      assert (bytes + [b])[1..] == bytes[1..] + [b];
    }
  }
}
