/**
 * The on-disk image cache of PresentationCreator2 (getBytesCached,
 * sha256Hex, downloadImageWithCache): an entry is named by the lowercase
 * hexadecimal SHA-256 of the URL plus ".bin"; a non-empty entry is served
 * without any download; fetched bytes are written to the ".tmp" name and then
 * moved over the ".bin" name.
 *
 * The cache directory is a map from file name to contents holding the
 * readable files. The SHA-256 digest of the URL's UTF-8 bytes is a function
 * given to the cache, the network is the one of ImageFetch, and whether
 * writing and moving the ".tmp" file succeed is a parameter.
 */
module ImageCache {
  import opened Wrappers
  import opened JavaText
  import opened Bytes
  import opened ImageFetch
  import opened UrlPattern

  // ---------------------------------------------------------------------
  // sha256Hex: two lowercase hex digits per digest byte
  // ---------------------------------------------------------------------

  predicate IsLowerHexDigit(c: char) { '0' <= c <= '9' || 'a' <= c <= 'f' }

  function HexDigit(n: int): (c: char)
    requires 0 <= n < 16
    ensures IsLowerHexDigit(c)
  {
    if n < 10 then (48 + n) as char else (87 + n) as char
  }

  function HexValue(c: char): (n: int)
    requires IsLowerHexDigit(c)
    ensures 0 <= n < 16 && HexDigit(n) == c
  {
    if c <= '9' then c as int - 48 else c as int - 87
  }

  /** String.format("%02x", b) for every byte, concatenated. */
  function HexOf(bytes: seq<byte>): string
  {
    if bytes == [] then ""
    else
      var b := bytes[|bytes| - 1] as int;
      HexOf(bytes[..|bytes| - 1]) + [HexDigit(b / 16), HexDigit(b % 16)]
  }

  /** A string of lowercase hex digits, two per byte. */
  predicate IsHexKey(s: string)
  {
    |s| % 2 == 0 && forall i :: 0 <= i < |s| ==> IsLowerHexDigit(s[i])
  }

  /** Reading a key back, two digits per byte. */
  function Unhex(s: string): seq<byte>
    requires IsHexKey(s)
  {
    if s == [] then []
    else Unhex(s[..|s| - 2]) + [(16 * HexValue(s[|s| - 2]) + HexValue(s[|s| - 1])) as byte]
  }

  /** The key has two characters per digest byte, all of them lowercase hex digits. */
  lemma {:induction false} HexShape(bytes: seq<byte>)
    ensures |HexOf(bytes)| == 2 * |bytes|
    ensures forall i :: 0 <= i < |HexOf(bytes)| ==> IsLowerHexDigit(HexOf(bytes)[i])
  {
    if bytes != [] {
      HexShape(bytes[..|bytes| - 1]);
    }
  }

  /** The key determines the digest: reading it back gives the digest's bytes. */
  lemma {:induction false} HexRoundTrip(bytes: seq<byte>)
    ensures IsHexKey(HexOf(bytes))
    ensures Unhex(HexOf(bytes)) == bytes
  {
    HexShape(bytes);
    if bytes != [] {
      var init, last := bytes[..|bytes| - 1], bytes[|bytes| - 1];
      var b := last as int;
      var hi, lo := HexDigit(b / 16), HexDigit(b % 16);
      var t := HexOf(init);
      assert HexOf(bytes) == t + [hi, lo];
      assert Unhex(t) == init by {
        HexRoundTrip(init);
      }
      assert Unhex(t + [hi, lo]) == init + [last] by {
        HexShape(init);
        UnhexSnoc(t, hi, lo);
        HexPair(last);
      }
      assert bytes == init + [last];
      assert Unhex(HexOf(bytes)) == bytes;
    }
  }

  /** The two digits of a byte read back as that byte. */
  lemma HexPair(b: byte)
    ensures (16 * HexValue(HexDigit(b as int / 16)) + HexValue(HexDigit(b as int % 16))) as byte == b
  {
    var x := b as int;
    HexDigitValue(x / 16);
    HexDigitValue(x % 16);
    assert 16 * (x / 16) + x % 16 == x;
  }

  /** A digit reads back as its value. */
  lemma HexDigitValue(n: int)
    requires 0 <= n < 16
    ensures HexValue(HexDigit(n)) == n
  {
  }

  /** Reading back a key extended by two digits extends the bytes by one. */
  lemma UnhexSnoc(t: string, hi: char, lo: char)
    requires IsHexKey(t)
    requires IsLowerHexDigit(hi) && IsLowerHexDigit(lo)
    ensures var s := t + [hi, lo];
      IsHexKey(s) && Unhex(s) == Unhex(t) + [(16 * HexValue(hi) + HexValue(lo)) as byte]
  {
    var s := t + [hi, lo];
    assert s[..|s| - 2] == t;
  }

  /** Different digests give different keys. */
  lemma HexInjective(a: seq<byte>, b: seq<byte>)
    requires HexOf(a) == HexOf(b)
    ensures a == b
  {
    HexRoundTrip(a);
    HexRoundTrip(b);
  }

  /** sha256Hex: the digest formatted byte by byte into a StringBuilder. */
  method Sha256Hex(text: string, sha256: string -> seq<byte>) returns (key: string)
    ensures key == HexOf(sha256(text))
  {
    var dig := sha256(text);
    key := "";
    for i := 0 to |dig|
      invariant key == HexOf(dig[..i])
    {
      assert dig[..i + 1][..i] == dig[..i];
      var b := dig[i] as int;
      key := key + [HexDigit(b / 16), HexDigit(b % 16)];
    }
    assert dig[..|dig|] == dig;
  }

  // ---------------------------------------------------------------------
  // The cache directory
  // ---------------------------------------------------------------------

  function BinName(key: string): string { key + ".bin" }

  function TmpName(key: string): string { key + ".tmp" }

  /** A cache hit: the ".bin" entry exists, is readable and is not empty. */
  function Lookup(files: map<string, seq<byte>>, key: string): Option<seq<byte>>
  {
    if BinName(key) in files && |files[BinName(key)]| > 0 then Some(files[BinName(key)]) else None
  }

  /** The directory after writing data to the ".tmp" entry and moving it over the ".bin" entry. */
  function Store(files: map<string, seq<byte>>, key: string, data: seq<byte>): map<string, seq<byte>>
  {
    (files - {TmpName(key)})[BinName(key) := data]
  }

  /** The ".tmp" and ".bin" names of a key differ. */
  lemma NamesDiffer(key: string)
    ensures TmpName(key) != BinName(key)
  {
    assert TmpName(key)[|key| + 1] != BinName(key)[|key| + 1];
  }

  /**
   * Writing the ".tmp" entry publishes nothing: until the move, a lookup of
   * the key sees what it saw before the write, whatever was written.
   */
  lemma TmpWriteInvisible(files: map<string, seq<byte>>, key: string, data: seq<byte>)
    ensures Lookup(files[TmpName(key) := data], key) == Lookup(files, key)
  {
    NamesDiffer(key);
  }

  /** After a store of non-empty bytes the key hits, with those bytes, and every other file is as before. */
  lemma StoreThenHit(files: map<string, seq<byte>>, key: string, data: seq<byte>)
    requires |data| > 0
    ensures Lookup(Store(files, key, data), key) == Some(data)
    ensures TmpName(key) !in Store(files, key, data)
    ensures forall name :: name != BinName(key) && name != TmpName(key) ==>
      (name in Store(files, key, data) <==> name in files) &&
      (name in files ==> Store(files, key, data)[name] == files[name])
  {
    NamesDiffer(key);
  }

  /**
   * How writing the fetched bytes to the cache ends: written and moved over
   * the ".bin" entry; an IOException from the output stream after `written`
   * bytes reached the ".tmp" file; or an IOException from the move, with the
   * whole ".tmp" file written.
   */
  datatype DiskWrite = Stored | WriteFailed(written: nat) | MoveFailed

  /** What getBytesCached gives back: the fetch's bytes, null or exception, or the IOException of the cache write. */
  datatype Cached = Served(fetched: Fetched) | DiskFailed

  /** What getBytesCached returns, the delays it sleeps, the directory it leaves, and whether it downloaded. */
  datatype CacheStep = CacheStep(result: Cached, delays: seq<int>, files: map<string, seq<byte>>, fetched: bool)

  /** The directory after a cache write of data that ends as disk says. */
  function Written(files: map<string, seq<byte>>, key: string, data: seq<byte>, disk: DiskWrite): map<string, seq<byte>>
  {
    match disk
    case Stored => Store(files, key, data)
    case WriteFailed(n) => files[TmpName(key) := data[..if n < |data| then n else |data|]]
    case MoveFailed => files[TmpName(key) := data]
  }

  /**
   * getBytesCached for a key: a hit is served as is; on a miss the download's
   * bytes, if any, are written to the cache, and an IOException there escapes
   * in place of the bytes.
   */
  function GetCached(files: map<string, seq<byte>>, key: string, download: Trace, disk: DiskWrite): CacheStep
  {
    match Lookup(files, key)
    case Some(data) => CacheStep(Served(Got(data)), [], files, false)
    case None =>
      if download.result.Got? then
        var after := Written(files, key, download.result.data, disk);
        CacheStep(if disk.Stored? then Served(download.result) else DiskFailed, download.delays, after, true)
      else CacheStep(Served(download.result), download.delays, files, true)
  }

  /**
   * The cache protocol: a hit does not download and changes nothing; a miss
   * downloads; downloaded bytes are returned unchanged and stored under the
   * key when the write succeeds; a null download (or an exception) stores
   * nothing.
   */
  lemma CacheProtocol(files: map<string, seq<byte>>, key: string, download: Trace, disk: DiskWrite)
    ensures var s := GetCached(files, key, download, disk);
      && (Lookup(files, key).Some? ==> !s.fetched && s.files == files && s.result == Served(Got(Lookup(files, key).value)) && s.delays == [])
      && (Lookup(files, key).None? ==> s.fetched && s.delays == download.delays)
      && (Lookup(files, key).None? && (disk.Stored? || !download.result.Got?) ==> s.result == Served(download.result))
      && (Lookup(files, key).None? && download.result.Got? && disk.Stored? ==> s.files == Store(files, key, download.result.data))
      && (Lookup(files, key).None? && !download.result.Got? ==> s.files == files)
  {}

  /**
   * A failed cache write throws instead of returning the fetched bytes, and
   * publishes nothing: the ".bin" lookup is what it was and only the ".tmp"
   * entry differs, holding a prefix of the bytes.
   */
  lemma DiskFailureKeepsBin(files: map<string, seq<byte>>, key: string, download: Trace, disk: DiskWrite)
    requires Lookup(files, key).None? && download.result.Got? && !disk.Stored?
    ensures var s := GetCached(files, key, download, disk);
      && s.result == DiskFailed && s.fetched
      && Lookup(s.files, key) == None
      && TmpName(key) in s.files && s.files[TmpName(key)] <= download.result.data
      && (disk.MoveFailed? ==> s.files[TmpName(key)] == download.result.data)
      && forall name :: name != TmpName(key) ==>
        (name in s.files <==> name in files) && (name in files ==> s.files[name] == files[name])
  {
    TmpWriteInvisible(files, key, Written(files, key, download.result.data, disk)[TmpName(key)]);
  }

  /** Asking twice: after a first call that yields bytes, the second call hits and gives the same bytes without downloading. */
  lemma SecondCallHits(files: map<string, seq<byte>>, key: string, uriOk: bool, respond1: nat -> Attempt, jitter1: nat -> int, disk1: DiskWrite,
                       second: Trace, disk2: DiskWrite)
    ensures var first := GetCached(files, key, FetchUrl(uriOk, respond1, jitter1), disk1);
      first.result.Served? && first.result.fetched.Got? ==>
        GetCached(first.files, key, second, disk2) == CacheStep(first.result, [], first.files, false)
  {
    var first := GetCached(files, key, FetchUrl(uriOk, respond1, jitter1), disk1);
    if first.result.Served? && first.result.fetched.Got? && Lookup(files, key).None? {
      GotWithinCap(respond1, jitter1, 1, 0);
      StoreThenHit(files, key, first.result.fetched.data);
    }
  }

  /** What downloadImageWithCache hands to the image decoder, or why it gives up. */
  datatype Download = Decode(bytes: seq<byte>) | NoImage | Failed(ioAttempt: nat) | Rejected | CacheWriteFailed

  /** downloadImageWithCache up to decoding: URL check, the cache, then the size guards. */
  function DownloadOutcome(files: map<string, seq<byte>>, url: string, key: string, download: Trace, disk: DiskWrite): (r: (Download, CacheStep))
    ensures r.0.Decode? ==> IsImageUrl(url) && 0 < |r.0.bytes| <= MAX_IMAGE_BYTES
    ensures !IsImageUrl(url) ==> r.0 == NoImage && !r.1.fetched && r.1.files == files
  {
    if !IsImageUrl(url) then (NoImage, CacheStep(Served(NoBytes), [], files, false))
    else
      var s := GetCached(files, key, download, disk);
      match s.result
      case Served(Got(data)) => (if 0 < |data| <= MAX_IMAGE_BYTES then Decode(data) else NoImage, s)
      case Served(NoBytes) => (NoImage, s)
      case Served(Thrown(n)) => (Failed(n), s)
      case Served(BadUri) => (Rejected, s)
      case DiskFailed => (CacheWriteFailed, s)
  }

  /** A cached entry over the cap is refused even though the cache serves it. */
  lemma OversizedHitRefused(files: map<string, seq<byte>>, url: string, key: string, download: Trace, disk: DiskWrite)
    requires IsImageUrl(url)
    requires BinName(key) in files && |files[BinName(key)]| > MAX_IMAGE_BYTES
    ensures DownloadOutcome(files, url, key, download, disk).0 == NoImage
    ensures !DownloadOutcome(files, url, key, download, disk).1.fetched
  {}

  /** The cache directory, updated in place by getBytesCached. */
  class Cache {
    var files: map<string, seq<byte>>
    const sha256: string -> seq<byte>

    constructor (files0: map<string, seq<byte>>, digest: string -> seq<byte>)
      ensures files == files0 && sha256 == digest
    {
      files := files0;
      sha256 := digest;
    }

    /** getBytesCached: look up, else download, write ".tmp", move it to ".bin". */
    method GetBytesCached(url: string, uriOk: bool, respond: nat -> Attempt, jitter: nat -> int, disk: DiskWrite)
      returns (result: Cached, delays: seq<int>)
      modifies this
      ensures var s := GetCached(old(files), HexOf(sha256(url)), FetchUrl(uriOk, respond, jitter), disk);
        result == s.result && delays == s.delays && files == s.files
    {
      var key := Sha256Hex(url, sha256);
      var target := BinName(key);
      if target in files && |files[target]| > 0 {
        return Served(Got(files[target])), [];
      }
      var bytes;
      bytes, delays := FetchBytesWithRetries(uriOk, respond, jitter);
      if !bytes.Got? {
        return Served(bytes), delays;
      }
      var tmp := TmpName(key);
      match disk {
        case WriteFailed(n) =>
          files := files[tmp := bytes.data[..if n < |bytes.data| then n else |bytes.data|]];
          return DiskFailed, delays;
        case MoveFailed =>
          files := files[tmp := bytes.data];
          return DiskFailed, delays;
        case Stored =>
          files := files[tmp := bytes.data];
          files := (files - {tmp})[target := files[tmp]];
          assert files == Store(old(files), key, bytes.data) by {
            NamesDiffer(key);
          }
          result := Served(bytes);
      }
    }

    /** downloadImageWithCache, up to the bytes it hands to ImageIO. */
    method DownloadImageWithCache(url: string, uriOk: bool, respond: nat -> Attempt, jitter: nat -> int, disk: DiskWrite)
      returns (r: Download, delays: seq<int>)
      modifies this
      ensures var o := DownloadOutcome(old(files), url, HexOf(sha256(url)), FetchUrl(uriOk, respond, jitter), disk);
        r == o.0 && delays == o.1.delays && files == o.1.files
    {
      if !IsImageUrl(url) {
        return NoImage, [];
      }
      var bytes;
      bytes, delays := GetBytesCached(url, uriOk, respond, jitter, disk);
      match bytes {
        case DiskFailed => r := CacheWriteFailed;
        case Served(NoBytes) => r := NoImage;
        case Served(Thrown(n)) => r := Failed(n);
        case Served(BadUri) => r := Rejected;
        case Served(Got(data)) =>
          if |data| == 0 || |data| > MAX_IMAGE_BYTES {
            r := NoImage;
          } else {
            r := Decode(data);
          }
      }
    }
  }
}
