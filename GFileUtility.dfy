/**
 * Temporary backing files: a bounded copy of an input stream in 8 KiB
 * chunks, and a full copy of a byte array under a padded name prefix.
 * Creating the file in the OS temp directory is not modelled; a
 * `TempFile` object stands for the new file and its output stream.
 */
module GFileUtility {
  import opened Wrappers

  newtype byte = b: int | 0 <= b < 256

  /** Size of the reusable copy buffer. */
  const BUFFER_SIZE: nat := 8192
  /** Java's `Integer.MAX_VALUE`, the cap of the uncapped overload. */
  const INTEGER_MAX_VALUE: int := 0x7fff_ffff
  /** A UTF-16 code unit: a Java `String` is a sequence of these, and `length()` counts them. */
  newtype CodeUnit = u: int | 0 <= u < 0x1_0000

  type JavaString = seq<CodeUnit>

  /** The UTF-16 encoding of one Unicode scalar value: one unit, or a surrogate pair. */
  function EncodeChar(c: char): seq<CodeUnit>
  {
    var v := c as int;
    if v < 0x1_0000 then [v as CodeUnit]
    else
      var w := v - 0x1_0000;
      [(0xD800 + w / 0x400) as CodeUnit, (0xDC00 + w % 0x400) as CodeUnit]
  }

  /** The Java string holding the characters of `s`. */
  function Utf16(s: string): JavaString
  {
    if s == [] then [] else EncodeChar(s[0]) + Utf16(s[1..])
  }

  /** The Java string of a text whose characters all lie in the Basic Multilingual Plane. */
  function BmpString(s: string): (r: JavaString)
    requires forall i :: 0 <= i < |s| ==> s[i] as int < 0x1_0000
    ensures |r| == |s|
  {
    seq(|s|, i requires 0 <= i < |s| => s[i] as int as CodeUnit)
  }

  /** For such a text, one code unit per character is its UTF-16 encoding. */
  lemma {:induction false} BmpStringIsUtf16(s: string)
    requires forall i :: 0 <= i < |s| ==> s[i] as int < 0x1_0000
    ensures BmpString(s) == Utf16(s)
  {
    if s != [] {
      BmpStringIsUtf16(s[1..]);
      assert BmpString(s) == [s[0] as int as CodeUnit] + BmpString(s[1..]);
    }
  }

  /** `"ghidra_file_system_"` as UTF-16 code units. */
  const GHIDRA_FILE_SYSTEM_PREFIX: JavaString :=
    [0x67, 0x68, 0x69, 0x64, 0x72, 0x61, 0x5F, 0x66, 0x69, 0x6C, 0x65, 0x5F, 0x73, 0x79, 0x73, 0x74, 0x65, 0x6D, 0x5F]
  /** `".tmp"` as UTF-16 code units. */
  const GHIDRA_FILE_SYSTEM_SUFFIX: JavaString := [0x2E, 0x74, 0x6D, 0x70]

  /** The prefix constant spells `"ghidra_file_system_"`. */
  lemma PrefixSpellsItsText()
    ensures GHIDRA_FILE_SYSTEM_PREFIX == Utf16("ghidra_file_system_")
  {
    var text := "ghidra_file_system_";
    assert GHIDRA_FILE_SYSTEM_PREFIX == BmpString(text);
    BmpStringIsUtf16(text);
  }

  /** The suffix constant spells `".tmp"`. */
  lemma SuffixSpellsItsText()
    ensures GHIDRA_FILE_SYSTEM_SUFFIX == Utf16(".tmp")
  {
  }

  /** The padding character `'_'`. */
  const UNDERSCORE: CodeUnit := 0x5F
  /** The shortest prefix the OS temp-file call accepts. */
  const MIN_PREFIX_LENGTH: nat := 3

  /** A new temporary file together with the output stream that writes it. */
  class TempFile {
    const prefix: JavaString
    const suffix: JavaString
    var contents: seq<byte>
    var closed: bool

    constructor (prefix: JavaString, suffix: JavaString)
      ensures this.prefix == prefix && this.suffix == suffix
      ensures contents == [] && !closed
    {
      this.prefix := prefix;
      this.suffix := suffix;
      contents := [];
      closed := false;
    }

    /** `write(buffer, off, len)`: appends `len` bytes of `buffer` from `off`. */
    method Write(buffer: array<byte>, off: nat, len: nat)
      requires !closed && off + len <= buffer.Length
      modifies this
      ensures contents == old(contents) + buffer[off..off + len] && !closed
    {
      contents := contents + buffer[off..off + len];
    }

    /** `close()`: nothing is written afterwards. */
    method Close()
      modifies this
      ensures closed && contents == old(contents)
    {
      closed := true;
    }
  }

  /**
   * An input stream, given by the answers of its successive `read(buffer)`
   * calls: each is a chunk of at most `BUFFER_SIZE` bytes; once they are
   * used up, `read` answers -1 (end of stream).
   */
  class InputStream {
    const chunks: seq<seq<byte>>
    var pos: nat

    predicate Valid()
      reads this
    {
      pos <= |chunks| && forall c :: c in chunks ==> |c| <= BUFFER_SIZE
    }

    /** The reads still to come. */
    function Remaining(): seq<seq<byte>>
      reads this
      requires Valid()
    {
      chunks[pos..]
    }

    constructor (chunks: seq<seq<byte>>)
      requires forall c :: c in chunks ==> |c| <= BUFFER_SIZE
      ensures Valid() && this.chunks == chunks && pos == 0
    {
      this.chunks := chunks;
      pos := 0;
    }

    /** `read(buffer)`: fills the front of `buffer` with the next chunk and returns its size, or -1. */
    method Read(buffer: array<byte>) returns (n: int)
      requires Valid() && buffer.Length == BUFFER_SIZE
      modifies this, buffer
      ensures Valid()
      ensures old(pos) == |chunks| ==> n == -1 && pos == old(pos)
      ensures old(pos) < |chunks| ==>
        n == |chunks[old(pos)]| && buffer[..n] == chunks[old(pos)] && pos == old(pos) + 1
    {
      if pos == |chunks| {
        return -1;
      }
      var c := chunks[pos];
      forall i | 0 <= i < |c| {
        buffer[i] := c[i];
      }
      n := |c|;
      pos := pos + 1;
    }
  }

  /** The concatenation of the chunks, in order. */
  function Flatten(cs: seq<seq<byte>>): seq<byte>
  {
    if cs == [] then [] else cs[0] + Flatten(cs[1..])
  }

  /**
   * The number of reads whose bytes the capped copy writes, when `written`
   * bytes are out already: the copy stops after the read that brings the
   * total to the cap or beyond, or at end of stream.
   */
  function TakenFrom(cs: seq<seq<byte>>, cap: int, written: int): (k: nat)
    ensures k <= |cs|
  {
    if cs == [] then 0
    else if written + |cs[0]| >= cap then 1
    else 1 + TakenFrom(cs[1..], cap, written + |cs[0]|)
  }

  /** The number of reads a copy with cap `cap` writes. */
  function Taken(cs: seq<seq<byte>>, cap: int): nat
  {
    TakenFrom(cs, cap, 0)
  }

  /** The bytes a copy with cap `cap` writes. */
  function CappedCopy(cs: seq<seq<byte>>, cap: int): seq<byte>
  {
    Flatten(cs[..Taken(cs, cap)])
  }

  lemma {:induction false} FlattenAppend(a: seq<seq<byte>>, b: seq<seq<byte>>)
    ensures Flatten(a + b) == Flatten(a) + Flatten(b)
    decreases |a|
  {
    if a == [] {
      assert a + b == b;
    } else {
      assert (a + b)[1..] == a[1..] + b;
      FlattenAppend(a[1..], b);
    }
  }

  /** The flattened first `k + 1` chunks are the first `k` followed by chunk `k`. */
  lemma FlattenExtend(cs: seq<seq<byte>>, k: nat)
    requires k < |cs|
    ensures Flatten(cs[..k + 1]) == Flatten(cs[..k]) + cs[k]
  {
    assert cs[..k + 1] == cs[..k] + [cs[k]];
    FlattenAppend(cs[..k], [cs[k]]);
    assert Flatten([cs[k]]) == cs[k] + Flatten([]);
  }

  /** The first `j` chunks of `cs` are its head followed by the first `j - 1` of its tail. */
  lemma FlattenPrefixCons(cs: seq<seq<byte>>, j: nat)
    requires 1 <= j <= |cs|
    ensures Flatten(cs[..j]) == cs[0] + Flatten(cs[1..][..j - 1])
  {
    assert cs[..j][1..] == cs[1..][..j - 1];
  }

  /** Before the read that stops the copy, the running total stays below the cap. */
  lemma {:induction false} TakenFromBelowCap(cs: seq<seq<byte>>, cap: int, written: int, j: nat)
    requires 1 <= j < TakenFrom(cs, cap, written)
    ensures written + |Flatten(cs[..j])| < cap
    decreases |cs|
  {
    FlattenPrefixCons(cs, j);
    if j > 1 {
      TakenFromBelowCap(cs[1..], cap, written + |cs[0]|, j - 1);
    }
  }

  /** A copy that stops before end of stream has read at least once and reached the cap. */
  lemma {:induction false} TakenFromReachesCap(cs: seq<seq<byte>>, cap: int, written: int)
    requires TakenFrom(cs, cap, written) < |cs|
    ensures 1 <= TakenFrom(cs, cap, written)
    ensures written + |Flatten(cs[..TakenFrom(cs, cap, written)])| >= cap
    decreases |cs|
  {
    var k := TakenFrom(cs, cap, written);
    FlattenPrefixCons(cs, k);
    if written + |cs[0]| < cap {
      TakenFromReachesCap(cs[1..], cap, written + |cs[0]|);
    } else {
      assert Flatten(cs[1..][..0]) == [];
    }
  }

  /** The copy writes a prefix of the input: the chunks it read, concatenated in order. */
  lemma CopyIsPrefixOfInput(cs: seq<seq<byte>>, cap: int)
    ensures CappedCopy(cs, cap) <= Flatten(cs)
  {
    var k := Taken(cs, cap);
    assert cs == cs[..k] + cs[k..];
    FlattenAppend(cs[..k], cs[k..]);
  }

  /**
   * It stops for one of two reasons: end of stream (every chunk copied), or
   * a read that brought the total to the cap or beyond; no earlier read did.
   */
  lemma CopyStopsAtFirstCapHit(cs: seq<seq<byte>>, cap: int)
    ensures Taken(cs, cap) < |cs| ==> 1 <= Taken(cs, cap) && |CappedCopy(cs, cap)| >= cap
    ensures forall j :: 1 <= j < Taken(cs, cap) ==> |Flatten(cs[..j])| < cap
  {
    if Taken(cs, cap) < |cs| {
      TakenFromReachesCap(cs, cap, 0);
    }
    forall j | 1 <= j < Taken(cs, cap)
      ensures |Flatten(cs[..j])| < cap
    {
      TakenFromBelowCap(cs, cap, 0, j);
    }
  }

  /** The overshoot: with a positive cap the copy stays below the cap plus one buffer. */
  lemma CopyOvershootBound(cs: seq<seq<byte>>, cap: int)
    requires cap > 0
    requires forall c :: c in cs ==> |c| <= BUFFER_SIZE
    ensures |CappedCopy(cs, cap)| < cap + BUFFER_SIZE
  {
    var k := Taken(cs, cap);
    if k > 0 {
      FlattenExtend(cs, k - 1);
      assert cs[k - 1] in cs;
      if k - 1 >= 1 {
        TakenFromBelowCap(cs, cap, 0, k - 1);
      }
    }
  }

  /** With a cap of zero or less exactly one read happens, and its chunk is written. */
  lemma CopyNonPositiveCap(cs: seq<seq<byte>>, cap: int)
    requires cap <= 0
    ensures CappedCopy(cs, cap) == if cs == [] then [] else cs[0]
  {
    if cs != [] {
      assert cs[..1] == [cs[0]];
      assert Flatten(cs[..1]) == cs[0] + Flatten([]);
    }
  }

  /** An input shorter than the cap is copied whole. */
  lemma CopyShortInputWhole(cs: seq<seq<byte>>, cap: int)
    requires |Flatten(cs)| < cap
    ensures CappedCopy(cs, cap) == Flatten(cs)
  {
    if Taken(cs, cap) < |cs| {
      TakenFromReachesCap(cs, cap, 0);
      CopyIsPrefixOfInput(cs, cap);
      assert false;
    }
    assert cs[..|cs|] == cs;
  }

  /** An input at least as long as the cap yields at least `cap` bytes. */
  lemma CopyLongInputReachesCap(cs: seq<seq<byte>>, cap: int)
    requires |Flatten(cs)| >= cap
    ensures |CappedCopy(cs, cap)| >= cap
  {
    if Taken(cs, cap) < |cs| {
      TakenFromReachesCap(cs, cap, 0);
    } else {
      assert cs[..|cs|] == cs;
    }
  }

  /** One full chunk under a cap of 100 writes all 8192 bytes: the copy may pass the cap. */
  lemma CopyMayExceedCap()
    ensures |CappedCopy([seq(BUFFER_SIZE, _ => 0 as byte)], 100)| == BUFFER_SIZE
  {
    var c := seq(BUFFER_SIZE, _ => 0 as byte);
    assert [c][..1] == [c];
    assert Flatten([c]) == c + Flatten([]);
  }

  /**
   * `writeTemporaryFile(inputStream, maxBytesToWrite)`: copies reads into a
   * new temporary file until end of stream, or until the running total
   * reaches the cap; the file is closed on the way out.
   */
  method WriteTemporaryFile(input: InputStream, maxBytesToWrite: int) returns (tempFile: TempFile)
    requires input.Valid()
    modifies input
    ensures fresh(tempFile) && tempFile.closed
    ensures tempFile.prefix == GHIDRA_FILE_SYSTEM_PREFIX && tempFile.suffix == GHIDRA_FILE_SYSTEM_SUFFIX
    ensures tempFile.contents == CappedCopy(old(input.Remaining()), maxBytesToWrite)
    ensures input.Valid()
    ensures input.pos == old(input.pos) + Taken(old(input.Remaining()), maxBytesToWrite)
  {
    tempFile := new TempFile(GHIDRA_FILE_SYSTEM_PREFIX, GHIDRA_FILE_SYSTEM_SUFFIX);
    ghost var cs := input.Remaining();
    ghost var k: nat := 0;
    var nWritten := 0;
    var buffer := new byte[BUFFER_SIZE];
    while true
      invariant input.Valid() && input.pos == old(input.pos) + k
      invariant k <= |cs| && input.Remaining() == cs[k..]
      invariant tempFile.contents == Flatten(cs[..k]) && nWritten == |tempFile.contents|
      invariant !tempFile.closed
      invariant Taken(cs, maxBytesToWrite) == k + TakenFrom(cs[k..], maxBytesToWrite, nWritten)
      decreases |cs| - k
    {
      var nRead := input.Read(buffer);
      if nRead == -1 {
        break;
      }
      tempFile.Write(buffer, 0, nRead);
      FlattenExtend(cs, k);
      assert cs[k..][1..] == cs[k + 1..];
      nWritten := nWritten + nRead;
      k := k + 1;
      if nWritten >= maxBytesToWrite {
        break;
      }
    }
    tempFile.Close();
  }

  /** `writeTemporaryFile(inputStream)`: the same copy with `Integer.MAX_VALUE` as the cap. */
  method WriteTemporaryFileDefault(input: InputStream) returns (tempFile: TempFile)
    requires input.Valid()
    modifies input
    ensures fresh(tempFile) && tempFile.closed
    ensures tempFile.prefix == GHIDRA_FILE_SYSTEM_PREFIX && tempFile.suffix == GHIDRA_FILE_SYSTEM_SUFFIX
    ensures tempFile.contents == CappedCopy(old(input.Remaining()), INTEGER_MAX_VALUE)
    ensures |Flatten(old(input.Remaining()))| < INTEGER_MAX_VALUE ==>
      tempFile.contents == Flatten(old(input.Remaining()))
    ensures input.Valid()
    ensures input.pos == old(input.pos) + Taken(old(input.Remaining()), INTEGER_MAX_VALUE)
  {
    ghost var cs := input.Remaining();
    tempFile := WriteTemporaryFile(input, INTEGER_MAX_VALUE);
    if |Flatten(cs)| < INTEGER_MAX_VALUE {
      CopyShortInputWhole(cs, INTEGER_MAX_VALUE);
    }
  }

  /**
   * The temp-file prefix for a caller's `prefix`: `null` becomes the
   * default prefix; a prefix shorter than three characters is padded with
   * `'_'` to exactly three; a longer one is kept.  Lengths are counted
   * in UTF-16 code units, as `String.length()` counts them.
   */
  predicate IsTempPrefixFor(prefix: Option<JavaString>, p: JavaString)
  {
    var s := prefix.GetOr(GHIDRA_FILE_SYSTEM_PREFIX);
    if |s| < MIN_PREFIX_LENGTH then
      |p| == MIN_PREFIX_LENGTH && p[..|s|] == s && forall i :: |s| <= i < MIN_PREFIX_LENGTH ==> p[i] == UNDERSCORE
    else
      p == s
  }

  /**
   * Padding counts UTF-16 code units: a prefix of one character outside the
   * Basic Multilingual Plane is already two units long and gets one `'_'`.
   */
  lemma PaddingCountsCodeUnits(p: JavaString)
    requires IsTempPrefixFor(Some(Utf16("\U{1F600}")), p)
    ensures p == [0xD83D, 0xDE00, UNDERSCORE]
  {
  }

  /** Defaults and pads the prefix the way `writeTemporaryFile(bytes, prefix)` does. */
  method TempFilePrefix(prefix: Option<JavaString>) returns (p: JavaString)
    ensures IsTempPrefixFor(prefix, p)
    ensures |p| >= MIN_PREFIX_LENGTH
    ensures prefix.Some? ==> prefix.value <= p
  {
    p := if prefix.None? then GHIDRA_FILE_SYSTEM_PREFIX else prefix.value;
    ghost var s := p;
    if |p| < MIN_PREFIX_LENGTH {
      for i := |p| to MIN_PREFIX_LENGTH
        invariant |p| == i && p[..|s|] == s
        invariant forall j :: |s| <= j < i ==> p[j] == UNDERSCORE
      {
        p := p + [UNDERSCORE];
      }
    }
  }

  /**
   * `writeTemporaryFile(bytes, prefix)`: writes the whole array into a new
   * temporary file named with the padded prefix, and closes it.
   */
  method WriteTemporaryFileBytes(bytes: array<byte>, prefix: Option<JavaString>) returns (tempFile: TempFile)
    ensures fresh(tempFile) && tempFile.closed
    ensures IsTempPrefixFor(prefix, tempFile.prefix) && tempFile.suffix == GHIDRA_FILE_SYSTEM_SUFFIX
    ensures tempFile.contents == bytes[..]
  {
    var p := TempFilePrefix(prefix);
    tempFile := new TempFile(p, GHIDRA_FILE_SYSTEM_SUFFIX);
    tempFile.Write(bytes, 0, bytes.Length);
    tempFile.Close();
  }
}
