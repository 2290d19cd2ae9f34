/** The SQL functions shox96_0_2c and shox96_0_2d: the codec behind a length header. */
module SqlFunctions {
  import opened Bits
  import opened Encoding
  import opened Decoding
  import opened Varint
  import opened RoundTrip
  import opened Guarantees
  import opened Compressor
  import opened Decompressor

  /** sqlite3_value_bytes is an int. */
  const INT_LIMIT: nat := 0x8000_0000

  /** The blob of a text: its length as a varint, then the compressed text without earlier lines. */
  ghost predicate IsBlob(blob: seq<byte>, s: seq<byte>, cfg: Config) {
    && Leb(|s|) <= blob
    && IsCompressed(blob[|Leb(|s|)|..], s, [], cfg)
  }

  lemma HeaderFits(n: nat)
    requires n < INT_LIMIT
    ensures |Leb(n)| <= 5
  {
    Pow2Seven(28);
    Pow2Seven(21);
    Pow2Seven(14);
    Pow2Seven(7);
    Pow2Seven(0);
    LebBound(n, 5);
  }

  /** shox96_0_2c */
  method Shox96c(s: seq<byte>, cfg: Config) returns (blob: seq<byte>)
    requires |s| < INT_LIMIT
    ensures IsBlob(blob, s, cfg)
  {
    hide Compressed;
    HeaderFits(|s|);
    var vInt := new byte[9];
    var vIntLen := EncodeUnsignedVarint(vInt, |s|);
    var outBuf := new byte[(37 * |s| + 15) / 16];
    var size := Compress(s, outBuf, [], cfg);
    blob := vInt[..vIntLen] + outBuf[..size];
    assert blob[vIntLen..] == outBuf[..size];
  }

  /** What the second function gives: no value, a blob, or an access outside its buffers. */
  datatype SqlValue = Null | Blob(bytes: seq<byte>) | Broken

  /** The length that a blob announces, as an unsigned int. */
  function Announced(blob: seq<byte>): nat
    requires LebSize(blob) <= |blob|
  {
    LebValue(blob[..LebSize(blob)]) % TWO_64 % 0x1_0000_0000
  }

  /** shox96_0_2d on a blob: the output buffer has the announced size. */
  ghost function SqlDecompressed(blob: seq<byte>): SqlValue {
    if |blob| < 2 then Null
    else if LebSize(blob) > |blob| || LebSize(blob) > 10 then Broken
    else
      match Decompressed(blob[LebSize(blob)..], [])
      case Crash => Broken
      case Done(out) => if Announced(blob) == 0 || |out| > Announced(blob) then Broken else Blob(out)
  }

  method Shox96d(blob: seq<byte>) returns (r: SqlValue)
    requires |blob| < 2 || !SqlDecompressed(blob).Broken?
    ensures |blob| < 2 ==> r == Null
    ensures r == SqlDecompressed(blob)
  {
    hide Decompressed, LebValue, LebSize;
    if |blob| < 2 {
      return Null;
    }
    var inBufLen64, vIntLen := DecodeUnsignedVarint(blob);
    var nOut := inBufLen64 % 0x1_0000_0000;
    var outBuf := new byte[nOut];
    var nOut2 := Decompress(blob[vIntLen..], outBuf, []);
    r := Blob(outBuf[..nOut2]);
  }

  /** The header of a blob says the length of the text and takes exactly its own bytes. */
  lemma BlobHeader(s: seq<byte>, cfg: Config, blob: seq<byte>)
    requires |s| < INT_LIMIT && IsBlob(blob, s, cfg)
    ensures LebSize(blob) == |Leb(|s|)| <= 10 && LebSize(blob) <= |blob| && Announced(blob) == |s|
  {
    hide Compressed, BitsOf, Leb, LebSize, LebValue;
    var n := |Leb(|s|)|;
    assert blob == Leb(|s|) + blob[n..];
    VarintInverse(|s|, blob[n..]);
  }

  /** End to end: decompressing the blob of a text gives the text exactly when the text is not empty and was
      compressed soundly. The blob of the empty text is one byte, and one byte gives no value. */
  lemma SqlInverse(s: seq<byte>, cfg: Config, blob: seq<byte>)
    requires |s| < INT_LIMIT && IsBlob(blob, s, cfg) && AllCountsFit(s, [], cfg, START)
    ensures SqlDecompressed(blob) == Blob(s) <==> s != [] && Faithful(s, [], cfg, START)
    ensures s == [] ==> SqlDecompressed(blob) == Null
  {
    hide Decompressed, Faithful, AllCountsFit, Leb, LebSize, Announced;
    BlobHeader(s, cfg, blob);
    var z := blob[|Leb(|s|)|..];
    RoundTripExact(s, [], cfg, z);
    if s == [] {
      EmptyBlob(cfg, z);
      EmptyLength();
      assert blob == Leb(0) + z;
    } else if z == [] {
      NothingGivesNothing();
    }
  }

  lemma EmptyLength()
    ensures |Leb(0)| == 1
  {
  }

  lemma NothingGivesNothing()
    ensures Decompressed([], []) == Done([])
  {
    assert |BitsOf([])| == 0;
  }

  lemma EmptyBlob(cfg: Config, z: seq<byte>)
    requires IsCompressed(z, [], [], cfg)
    ensures z == []
  {
    assert |BitsOf(z)| == 8 * |z|;
    assert Encode([], [], cfg, START) == [];
  }

  /** A text whose run is sound, stored and read back. The empty text comes back as no value. */
  method StoreAndLoad(s: seq<byte>, cfg: Config) returns (r: SqlValue)
    requires |s| < INT_LIMIT && AllCountsFit(s, [], cfg, START) && Faithful(s, [], cfg, START)
    ensures r == if s == [] then Null else Blob(s)
  {
    hide Decompressed, Faithful, AllCountsFit, IsBlob, SqlDecompressed;
    var blob := Shox96c(s, cfg);
    SqlInverse(s, cfg, blob);
    r := Shox96d(blob);
  }

  /** The announced length is the room for the output, and nothing else: any 64-bit header of which the low 32 bits
      leave room enough gives the same answer, and any other one makes the function leave its buffer. */
  lemma HeaderIsRoom(n: nat, z: seq<byte>)
    requires n < TWO_64 && |Leb(n) + z| >= 2
    ensures var d, room := Decompressed(z, []), n % 0x1_0000_0000;
            SqlDecompressed(Leb(n) + z) == if d.Done? && room > 0 && |d.out| <= room then Blob(d.out) else Broken
  {
    hide Decompressed, Leb, LebSize, LebValue;
    var blob := Leb(n) + z;
    VarintInverse(n, z);
    assert blob[|Leb(n)|..] == z;
  }

  /** A header that does not end is read beyond the blob. */
  lemma {:induction false} EndlessHeader(blob: seq<byte>)
    requires forall i | 0 <= i < |blob| :: blob[i] >= 128
    ensures LebSize(blob) == |blob| + 1 && (|blob| >= 2 ==> SqlDecompressed(blob) == Broken)
    decreases |blob|
  {
    if blob != [] { EndlessHeader(blob[1..]); }
  }

  /** Every nonempty text of the promised alphabet, below 70312 bytes, without a trap, comes back. */
  lemma AlphabetLoads(s: seq<byte>, cfg: Config, blob: seq<byte>)
    requires s != [] && SizesFit(s, []) && InAlphabet(s) && (forall l :: !Trap(s, l)) && IsBlob(blob, s, cfg)
    ensures SqlDecompressed(blob) == Blob(s)
  {
    hide Faithful, AllCountsFit, IsBlob, SqlDecompressed;
    SizesFitCounts(s, [], cfg, START);
    NoTrapFaithful(s, [], cfg, START);
    SqlInverse(s, cfg, blob);
  }
}
