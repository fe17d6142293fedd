/** FileValidatorService: recognises a supported audio file by its extension
    and the magic bytes it starts with. */
module Validation {
  import opened Common
  import opened Text

  /** An (extension, magic prefix) entry of the signature table. */
  datatype Signature = Signature(ext: string, magic: seq<byte>)

  /** The `Signature` constructor stores its extension lower-cased. */
  function MakeSignature(ext: string, magic: seq<byte>): Signature
  {
    Signature(ToLower(ext), magic)
  }

  /** The fixed signature table: three MPEG frame headers and the ID3 tag. */
  const Signatures: seq<Signature> := [
    MakeSignature(".mp3", [0xFF, 0xFB]),
    MakeSignature(".mp3", [0xFF, 0xF3]),
    MakeSignature(".mp3", [0xFF, 0xF2]),
    MakeSignature(".mp3", [0x49, 0x44, 0x33])
  ]

  /** The magic prefixes registered for ".mp3", in table order. */
  const Mp3Magics: seq<seq<byte>> := [[0xFF, 0xFB], [0xFF, 0xF3], [0xFF, 0xF2], [0x49, 0x44, 0x33]]

  lemma SignatureTable()
    ensures |Signatures| == |Mp3Magics|
    ensures forall i | 0 <= i < |Signatures| :: Signatures[i] == Signature(".mp3", Mp3Magics[i])
  {
    assert ToLower(".mp3") == ".mp3";
  }

  /** LINQ `Take(n)`: the first `n` elements, or all of them when there are
      fewer. */
  function Take<T>(s: seq<T>, n: nat): (r: seq<T>)
  {
    if |s| <= n then s else s[..n]
  }

  /** The longest magic prefix of a non-empty table (LINQ `Max`, which
      throws on an empty one). */
  function MaxPrefixLength(sigs: seq<Signature>): (n: nat)
    requires |sigs| > 0
    ensures forall i | 0 <= i < |sigs| :: |sigs[i].magic| <= n
    ensures exists i | 0 <= i < |sigs| :: |sigs[i].magic| == n
  {
    if |sigs| == 1 then |sigs[0].magic|
    else
      var rest := MaxPrefixLength(sigs[1..]);
      assert forall i | 1 <= i < |sigs| :: sigs[i] == sigs[1..][i - 1];
      if |sigs[0].magic| > rest then |sigs[0].magic| else rest
  }

  /** `MaxSize()`: how many leading bytes a caller must supply, the longest
      registered magic. */
  function MaxSize(): (n: nat)
    ensures forall i | 0 <= i < |Signatures| :: |Signatures[i].magic| <= n
    ensures exists i | 0 <= i < |Signatures| :: |Signatures[i].magic| == n
  {
    MaxPrefixLength(Signatures)
  }

  /** The registered table needs exactly three leading bytes. */
  lemma MaxSizeIsThree()
    ensures MaxSize() == 3
  {
    SignatureTable();
    var n := MaxSize();
    assert |Signatures[3].magic| == 3;
    var i :| 0 <= i < |Signatures| && |Signatures[i].magic| == n;
  }

  /** One signature accepts `data` for a file with the given extension: the
      extensions are equal ignoring case and the leading bytes are exactly
      the signature's magic. */
  predicate Matches(sig: Signature, extension: string, data: seq<byte>)
  {
    EqualsIgnoreCase(sig.ext, extension) && Take(data, |sig.magic|) == sig.magic
  }

  /** Some registered signature accepts `data` for the given extension. */
  predicate Accepts(extension: string, data: seq<byte>)
  {
    exists i | 0 <= i < |Signatures| :: Matches(Signatures[i], extension, data)
  }

  /** `CheckType`: walks the signatures whose extension equals the given one
      ignoring case and stops at the first whose magic `data` starts with. */
  method CheckType(extension: string, data: seq<byte>) returns (ok: bool)
    ensures ok == Accepts(extension, data)
  {
    var i := 0;
    while i < |Signatures|
      invariant 0 <= i <= |Signatures|
      invariant forall j | 0 <= j < i :: !Matches(Signatures[j], extension, data)
    {
      var sig := Signatures[i];
      if EqualsIgnoreCase(sig.ext, extension) && Take(data, |sig.magic|) == sig.magic {
        return true;
      }
      i := i + 1;
    }
    return false;
  }

  // ------------------------------------------------------------ properties

  /** The table read as a rule: an extension that is ".mp3" ignoring case,
      and a buffer that starts with one of the four MP3 magic prefixes. */
  lemma AcceptsExactly(extension: string, data: seq<byte>)
    ensures Accepts(extension, data) <==>
      ToLower(extension) == ".mp3"
      && exists m | m in Mp3Magics :: |m| <= |data| && data[..|m|] == m
  {
    SignatureTable();
    if Accepts(extension, data) {
      var i :| 0 <= i < |Signatures| && Matches(Signatures[i], extension, data);
      var m := Mp3Magics[i];
      assert Take(data, |m|) == m;
    }
    if ToLower(extension) == ".mp3" && exists m | m in Mp3Magics :: |m| <= |data| && data[..|m|] == m {
      var m :| m in Mp3Magics && |m| <= |data| && data[..|m|] == m;
      var i :| 0 <= i < |Mp3Magics| && Mp3Magics[i] == m;
      assert Matches(Signatures[i], extension, data);
    }
  }

  /** Extension matching ignores case. */
  lemma AcceptsIgnoresCase(extension: string, other: string, data: seq<byte>)
    requires ToLower(extension) == ToLower(other)
    ensures Accepts(extension, data) == Accepts(other, data)
  {
    if Accepts(extension, data) {
      var i :| 0 <= i < |Signatures| && Matches(Signatures[i], extension, data);
      assert Matches(Signatures[i], other, data);
    }
    if Accepts(other, data) {
      var i :| 0 <= i < |Signatures| && Matches(Signatures[i], other, data);
      assert Matches(Signatures[i], extension, data);
    }
  }

  /** ".MP3" and ".mp3" give the same answer for the same bytes. */
  lemma UpperCaseMp3(data: seq<byte>)
    ensures Accepts(".MP3", data) == Accepts(".mp3", data)
  {
    assert ToLower(".MP3") == ToLower(".mp3");
    AcceptsIgnoresCase(".MP3", ".mp3", data);
  }

  /** A buffer shorter than a signature's magic never matches it; the
      comparison simply fails. */
  lemma ShortBufferNeverMatches(sig: Signature, extension: string, data: seq<byte>)
    requires |data| < |sig.magic|
    ensures !Matches(sig, extension, data)
  {
  }

  /** An extension other than ".mp3" (ignoring case) is rejected whatever
      the bytes. */
  lemma UnknownExtensionRejected(extension: string, data: seq<byte>)
    requires ToLower(extension) != ".mp3"
    ensures !Accepts(extension, data)
  {
    AcceptsExactly(extension, data);
  }

  /** Bytes after the matched prefix play no part: extending an accepted
      buffer keeps it accepted. */
  lemma AppendKeepsAccepted(extension: string, data: seq<byte>, extra: seq<byte>)
    requires Accepts(extension, data)
    ensures Accepts(extension, data + extra)
  {
    var i :| 0 <= i < |Signatures| && Matches(Signatures[i], extension, data);
    var n := |Signatures[i].magic|;
    assert |data| >= n;
    assert (data + extra)[..n] == data[..n];
    assert Matches(Signatures[i], extension, data + extra);
  }

  /** Only the first `MaxSize()` bytes are ever looked at. */
  lemma PrefixSuffices(extension: string, data: seq<byte>)
    ensures Accepts(extension, data) == Accepts(extension, Take(data, MaxSize()))
  {
    MaxSizeIsThree();
    var head := Take(data, MaxSize());
    forall i | 0 <= i < |Signatures|
      ensures Matches(Signatures[i], extension, data) == Matches(Signatures[i], extension, head)
    {
      var n := |Signatures[i].magic|;
      assert n <= 3;
      if |data| > 3 {
        assert head[..n] == data[..n];
      }
    }
  }

  /** A buffer under ".mp3" that starts with a registered MP3 prefix is
      accepted, whatever follows the prefix. */
  lemma Mp3PrefixAccepted(m: seq<byte>, rest: seq<byte>)
    requires m in Mp3Magics
    ensures Accepts(".mp3", m + rest)
  {
    assert ToLower(".mp3") == ".mp3";
    assert (m + rest)[..|m|] == m;
    AcceptsExactly(".mp3", m + rest);
  }

  /** With extension ".mp3", buffers starting FF FB, FF F3, FF F2 or
      49 44 33 are accepted. */
  lemma Mp3PrefixesAccepted(rest: seq<byte>)
    ensures Accepts(".mp3", [0xFF, 0xFB] + rest)
    ensures Accepts(".mp3", [0xFF, 0xF3] + rest)
    ensures Accepts(".mp3", [0xFF, 0xF2] + rest)
    ensures Accepts(".mp3", [0x49, 0x44, 0x33] + rest)
  {
    Mp3PrefixAccepted([0xFF, 0xFB], rest);
    Mp3PrefixAccepted([0xFF, 0xF3], rest);
    Mp3PrefixAccepted([0xFF, 0xF2], rest);
    Mp3PrefixAccepted([0x49, 0x44, 0x33], rest);
  }

  /** The bytes of the text "test", named ".mp3", are rejected. */
  lemma TextFileRejected()
    ensures !Accepts(".mp3", [0x74, 0x65, 0x73, 0x74])
  {
    var data: seq<byte> := [0x74, 0x65, 0x73, 0x74];
    forall m: seq<byte> | m in Mp3Magics ensures !(|m| <= |data| && data[..|m|] == m) {
      assert m[0] == 0xFF || m[0] == 0x49;
    }
    AcceptsExactly(".mp3", data);
  }

  /** No registered magic ends in a zero byte, so padding a short buffer
      with zeros cannot complete a magic prefix. */
  lemma NoMagicEndsInZero()
    ensures forall i | 0 <= i < |Signatures| ::
      |Signatures[i].magic| > 0 && Signatures[i].magic[|Signatures[i].magic| - 1] != 0
  {
    SignatureTable();
  }
}
