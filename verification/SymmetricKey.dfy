/** Symmetric-key files: written as hexadecimal text by newSymKeyCommand of
    internal/cli/keygen.go, read back by readHexKey of internal/cli/cms.go. */
module SymmetricKey {
  import opened Basics
  import opened AtomicFiles
  import Text

  datatype KeyError =
    | UnsupportedAlgorithm
    | OutRequired
    | NotDrawn
    | NotWritten(cause: FileError)
    | KeyRequired
    | NotInspected
    | NotRegular
    | NotRead
    | NotHexadecimal
    | WrongLength

  // ----- the policy tables -----

  const KEY_BITS: map<string, nat> := map[
    "aes-128" := 128, "aes-192" := 192, "aes-256" := 256, "chacha20" := 256,
    "camellia-128" := 128, "camellia-192" := 192, "camellia-256" := 256,
    "aria-128" := 128, "aria-192" := 192, "aria-256" := 256, "sm4" := 128]

  function InferAESCipher(length: nat): Option<string> {
    match length
    case 16 => Some("aes-128-gcm")
    case 24 => Some("aes-192-gcm")
    case 32 => Some("aes-256-gcm")
    case _ => None
  }

  /** Key length, in bytes, that a CMS cipher asks for. */
  function CMSKeyLength(cipher: string): Option<nat> {
    if cipher in {"aes-128-gcm", "aes-128-cbc", "camellia-128-cbc", "aria-128-cbc", "sm4-cbc"} then Some(16)
    else if cipher in {"aes-192-gcm", "aes-192-cbc", "camellia-192-cbc", "aria-192-cbc"} then Some(24)
    else if cipher in {"aes-256-gcm", "aes-256-cbc", "camellia-256-cbc", "aria-256-cbc"} then Some(32)
    else None
  }

  predicate ValidCMSKeyCipher(cipher: string, keyLength: nat) {
    CMSKeyLength(cipher) == Some(keyLength)
  }

  /** A number in decimal. */
  function Decimal(n: nat): string {
    var digit := ['0' + (n % 10) as char];
    if n < 10 then digit else Decimal(n / 10) + digit
  }

  lemma DecimalSizes()
    ensures Decimal(128) == "128" && Decimal(192) == "192" && Decimal(256) == "256"
  {
    assert Decimal(1) == "1" && Decimal(2) == "2";
    assert Decimal(12) == "12" && Decimal(19) == "19" && Decimal(25) == "25";
  }

  predicate SizedName(name: string, family: string, bits: nat, rest: string) {
    name == family + "-" + Decimal(bits) + rest
  }

  lemma Spellings()
    ensures SizedName("aes-128", "aes", 128, "")
         && SizedName("aes-192", "aes", 192, "")
         && SizedName("aes-256", "aes", 256, "")
    ensures SizedName("aes-128-gcm", "aes", 128, "-gcm")
         && SizedName("aes-192-gcm", "aes", 192, "-gcm")
         && SizedName("aes-256-gcm", "aes", 256, "-gcm")
    ensures SizedName("aes-128-cbc", "aes", 128, "-cbc")
         && SizedName("aes-192-cbc", "aes", 192, "-cbc")
         && SizedName("aes-256-cbc", "aes", 256, "-cbc")
    ensures SizedName("camellia-128", "camellia", 128, "")
         && SizedName("camellia-192", "camellia", 192, "")
         && SizedName("camellia-256", "camellia", 256, "")
    ensures SizedName("camellia-128-cbc", "camellia", 128, "-cbc")
         && SizedName("camellia-192-cbc", "camellia", 192, "-cbc")
         && SizedName("camellia-256-cbc", "camellia", 256, "-cbc")
    ensures SizedName("aria-128", "aria", 128, "")
         && SizedName("aria-192", "aria", 192, "")
         && SizedName("aria-256", "aria", 256, "")
    ensures SizedName("aria-128-cbc", "aria", 128, "-cbc")
         && SizedName("aria-192-cbc", "aria", 192, "-cbc")
         && SizedName("aria-256-cbc", "aria", 256, "-cbc")
  {
    DecimalSizes();
  }

  /** The name of an algorithm says how many bits its keys have; SM4 and ChaCha20 come in one
      size. */
  lemma BitsAreInTheName(algorithm: string, bits: nat)
    ensures algorithm in KEY_BITS && KEY_BITS[algorithm] == bits
       <==> (|| (&& bits in {128, 192, 256}
                 && (|| SizedName(algorithm, "aes", bits, "")
                     || SizedName(algorithm, "camellia", bits, "")
                     || SizedName(algorithm, "aria", bits, "")))
             || (algorithm == "chacha20" && bits == 256)
             || (algorithm == "sm4" && bits == 128))
  {
    Spellings();
    hide Decimal;
  }

  /** A key gets AES-GCM of its own size, and no other key gets any. */
  lemma InferredCipher(length: nat)
    ensures InferAESCipher(length).Some? <==> 8 * length in {128, 192, 256}
    ensures InferAESCipher(length).Some? ==> SizedName(InferAESCipher(length).value, "aes", 8 * length, "-gcm")
  {
    Spellings();
    hide Decimal;
  }

  /** A cipher accepts a key exactly if the key has the size that the name of the cipher says,
      for SM4 the one size that there is. */
  lemma CipherSaysItsSize(cipher: string, length: nat)
    ensures ValidCMSKeyCipher(cipher, length)
       <==> (|| (&& 8 * length in {128, 192, 256}
                 && (|| SizedName(cipher, "aes", 8 * length, "-gcm")
                     || SizedName(cipher, "aes", 8 * length, "-cbc")
                     || SizedName(cipher, "camellia", 8 * length, "-cbc")
                     || SizedName(cipher, "aria", 8 * length, "-cbc")))
             || (cipher == "sm4-cbc" && length == 16))
  {
    Spellings();
    hide Decimal;
  }

  // ----- hexadecimal -----

  function HexDigit(n: nat): (c: Byte)
    requires n < 16
    ensures HexValue(c) == Some(n)
    ensures Lower(c) == c
  {
    if n < 10 then 0x30 + n else 0x61 + (n - 10)
  }

  function HexValue(c: Byte): (v: Option<nat>)
    ensures v.Some? ==> v.value < 16 && c < 0x80 && !Text.AsciiSpace(c)
  {
    if 0x30 <= c <= 0x39 then Some(c - 0x30)
    else if 0x61 <= c <= 0x66 then Some(c - 0x61 + 10)
    else if 0x41 <= c <= 0x46 then Some(c - 0x41 + 10)
    else None
  }

  function Lower(c: Byte): Byte {
    if 0x41 <= c <= 0x5A then c + 0x20 else c
  }

  function LowerAll(s: Bytes): Bytes {
    seq(|s|, i requires 0 <= i < |s| => Lower(s[i]))
  }

  /** Two lower-case digits a byte: section 8 of RFC 4648, but in lower case. */
  function EncodeHex(key: Bytes): (t: Bytes)
    ensures |t| == 2 * |key|
    ensures forall i :: 0 <= i < |t| ==> HexValue(t[i]).Some?
  {
    if key == [] then [] else [HexDigit(key[0] / 16), HexDigit(key[0] % 16)] + EncodeHex(key[1..])
  }

  function DecodeHex(t: Bytes): (r: Option<Bytes>)
    ensures r.Some? ==> |t| == 2 * |r.value|
  {
    if t == [] then Some([])
    else if |t| == 1 || HexValue(t[0]).None? || HexValue(t[1]).None? then None
    else match DecodeHex(t[2..])
      case None => None
      case Some(rest) => var b: Byte := HexValue(t[0]).value * 16 + HexValue(t[1]).value; Some([b] + rest)
  }

  lemma DigitIs(n: nat)
    requires n < 16
    ensures HexDigit(n) == "0123456789abcdef"[n] as int
  {
  }

  /** Byte number `i` is written as digits number 2i and 2i + 1, high digit first. */
  lemma {:induction false} EncodeHexDigits(key: Bytes, i: nat)
    requires i < |key|
    ensures EncodeHex(key)[2 * i] == "0123456789abcdef"[key[i] / 16] as int
    ensures EncodeHex(key)[2 * i + 1] == "0123456789abcdef"[key[i] % 16] as int
  {
    hide HexDigit;
    DigitIs(key[i] / 16);
    DigitIs(key[i] % 16);
    if i > 0 {
      EncodeHexDigits(key[1..], i - 1);
      assert EncodeHex(key)[2..] == EncodeHex(key[1..]);
    }
  }

  /** Digits of either case are decoded. */
  lemma {:induction false} DecodeAnyCase(t: Bytes, key: Bytes)
    requires LowerAll(t) == EncodeHex(key)
    ensures DecodeHex(t) == Some(key)
  {
    if key != [] {
      assert Lower(t[0]) == LowerAll(t)[0] && Lower(t[1]) == LowerAll(t)[1];
      assert LowerAll(t[2..]) == LowerAll(t)[2..] == EncodeHex(key[1..]);
      DecodeAnyCase(t[2..], key[1..]);
      DigitOfAnyCase(t[0], key[0] / 16);
      DigitOfAnyCase(t[1], key[0] % 16);
      assert [key[0]] + key[1..] == key;
    }
  }

  lemma DigitOfAnyCase(c: Byte, n: nat)
    requires n < 16 && Lower(c) == HexDigit(n)
    ensures HexValue(c) == Some(n)
  {
  }

  lemma {:induction false} DecodeOfEncode(key: Bytes)
    ensures DecodeHex(EncodeHex(key)) == Some(key)
  {
    if key != [] {
      var t := EncodeHex(key);
      DecodeOfEncode(key[1..]);
      assert t[2..] == EncodeHex(key[1..]);
      assert HexValue(t[0]) == Some(key[0] / 16) && HexValue(t[1]) == Some(key[0] % 16);
      assert [key[0]] + key[1..] == key;
    }
  }

  /** One byte and its two digits determine each other, up to the case of the digits. */
  lemma DigitsOfByte(high: Byte, low: Byte, b: Byte)
    requires HexValue(high).Some? && HexValue(low).Some?
    requires b == HexValue(high).value * 16 + HexValue(low).value
    ensures HexDigit(b / 16) == Lower(high) && HexDigit(b % 16) == Lower(low)
  {
  }

  /** Whatever is decoded encodes to the same text in lower case. */
  lemma {:induction false} EncodeOfDecode(t: Bytes)
    requires DecodeHex(t).Some?
    ensures EncodeHex(DecodeHex(t).value) == LowerAll(t)
  {
    if t != [] {
      var key := DecodeHex(t).value;
      EncodeOfDecode(t[2..]);
      assert key[1..] == DecodeHex(t[2..]).value;
      DigitsOfByte(t[0], t[1], key[0]);
      hide HexDigit, HexValue, Lower, DecodeHex;
      assert LowerAll(t) == [Lower(t[0]), Lower(t[1])] + LowerAll(t[2..]);
    }
  }

  // ----- key files -----

  /** The text of a key file. */
  function KeyText(key: Bytes): Bytes {
    EncodeHex(key) + [LF]
  }

  function ParseKey(text: Bytes): Result<Bytes, KeyError> {
    match DecodeHex(Text.TrimSpace(text))
    case None => Failure(NotHexadecimal)
    case Some(key) => if |key| in {16, 24, 32} then Success(key) else Failure(WrongLength)
  }

  /** Reading gives back exactly the keys of the three lengths that writing can produce. */
  lemma KeyTextRoundTrip(key: Bytes)
    requires key != []
    ensures ParseKey(KeyText(key)) == if |key| in {16, 24, 32} then Success(key) else Failure(WrongLength)
  {
    var t := EncodeHex(key);
    Text.TrimKeeps(t);
    DecodeOfEncode(key);
  }

  /** Every accepted text is, but for case and surrounding space, the text of its key. */
  lemma AcceptedText(text: Bytes)
    requires ParseKey(text).Success?
    ensures KeyText(ParseKey(text).value) == LowerAll(Text.TrimSpace(text)) + [LF]
  {
    EncodeOfDecode(Text.TrimSpace(text));
  }

  ghost predicate Spells(text: Bytes, key: Bytes) {
    LowerAll(Text.TrimSpace(text)) == EncodeHex(key)
  }

  /** And every such text is accepted: the key is what the trimmed text spells in either
      case, if it has one of the three lengths, and each error says what is wrong. */
  lemma AcceptedIff(text: Bytes)
    ensures forall key :: ParseKey(text) == Success(key) <==> Spells(text, key) && |key| in {16, 24, 32}
    ensures ParseKey(text) == Failure(WrongLength) <==> exists key :: Spells(text, key) && |key| !in {16, 24, 32}
    ensures ParseKey(text) == Failure(NotHexadecimal) <==> forall key :: !Spells(text, key)
  {
    hide Text.TrimSpace, EncodeHex, DecodeHex, LowerAll;
    var t := Text.TrimSpace(text);
    forall key | Spells(text, key) ensures DecodeHex(t) == Some(key) {
      DecodeAnyCase(t, key);
    }
    if DecodeHex(t).Some? {
      EncodeOfDecode(t);
      assert Spells(text, DecodeHex(t).value);
    }
  }

  /** So the case of the digits does not matter, nor blanks, tabs and line ends around them. */
  lemma SpacedTextRoundTrip(before: Bytes, t: Bytes, after: Bytes, key: Bytes)
    requires Text.Blank(before) && Text.Blank(after)
    requires |key| in {16, 24, 32} && LowerAll(t) == EncodeHex(key)
    ensures ParseKey(before + t + after) == Success(key)
  {
    DecodeAnyCase(t, key);
    DigitsAreBare(t);
    Text.TrimBlank(before, t, after);
  }

  lemma DigitsAreBare(t: Bytes)
    requires DecodeHex(t).Some? && t != []
    ensures Text.Bare(t)
  {
    DecodedDigits(t);
    assert HexValue(t[0]).Some? && HexValue(t[|t| - 1]).Some?;
  }

  lemma {:induction false} DecodedDigits(t: Bytes)
    requires DecodeHex(t).Some?
    ensures forall i :: 0 <= i < |t| ==> HexValue(t[i]).Some?
  {
    if t != [] {
      DecodedDigits(t[2..]);
      assert forall i :: 2 <= i < |t| ==> t[i] == t[2..][i - 2];
    }
  }

  /** For every algorithm of the table and every key of its size: the file written for it
      is read back as that key, and the cipher inferred for it suits it. */
  lemma KeyFileRoundTrip(algorithm: string, key: Bytes)
    requires algorithm in KEY_BITS && |key| == KEY_BITS[algorithm] / 8
    ensures ParseKey(KeyText(key)) == Success(key)
    ensures InferAESCipher(|key|).Some? && ValidCMSKeyCipher(InferAESCipher(|key|).value, |key|)
  {
    assert KEY_BITS[algorithm] in {128, 192, 256};
    KeyTextRoundTrip(key);
  }

  // ----- the commands -----

  /** The file that a key belongs in: its digits and a line end, for the owner alone. */
  function KeyFile(key: Bytes): Node {
    Regular(EncodeHex(key) + ['\n' as int], 6 * 64)
  }

  /** The exact condition for a key file to be written. */
  ghost predicate Writable(disk: Disk, files: Files, output: Bytes, force: bool) {
    && Named(output) && disk.resolve(output).Some?
    && Replaceable(files, disk.resolve(output).value, force)
    && disk.resolve(output).value.dir in disk.directories
  }

  ghost predicate IsZero(buffer: array<Byte>)
    reads buffer
  {
    buffer[..] == Zeros(buffer.Length)
  }

  /** symkey from the drawn key on: writes its text through AtomicPath and erases both
      buffers, whatever happens. `wrote` tells whether os.WriteFile succeeded, and `partial`
      what it left behind if not. */
  method WriteKey(disk: Disk, key: array<Byte>, encoded: array<Byte>, output: Bytes, force: bool,
                  wrote: bool, partial: Bytes, tempBase: Bytes)
    returns (err: Option<FileError>)
    requires key != encoded && encoded[..] == KeyText(key[..])
    requires TempFresh(disk, output, tempBase)
    modifies disk`nodes, disk`seen, disk`calls, key, encoded
    ensures IsZero(key) && IsZero(encoded)
    ensures err.None? <==>
              wrote && Writable(disk, old(disk.nodes), output, force) && Quiet(disk.fails, old(disk.calls), 7)
    ensures err.None? ==> disk.calls == old(disk.calls) + 7
    ensures disk.nodes == if err.Some? then old(disk.nodes)
                          else old(disk.nodes)[disk.resolve(output).value := KeyFile(old(key[..]))]
  {
    var written := Put(0, if wrote then encoded[..] else partial, PRIVATE);
    if wrote && disk.resolve(output).Some? {
      var d := disk.resolve(output).value;
      WrittenOnce(disk.nodes, Path(d.dir, tempBase), d, encoded[..]);
    }
    err := AtomicPath(disk, output, PRIVATE, force, Callback([written], wrote), tempBase);
    Zero(encoded);
    Zero(key);
  }

  /** The random source: fills buffers, or fails. */
  class RandomSource {
    const stream: nat -> Byte
    const broken: bool
    ghost var filled: seq<array<Byte>>

    constructor (stream: nat -> Byte, broken: bool)
      ensures this.stream == stream && this.broken == broken && filled == []
    {
      this.stream, this.broken, filled := stream, broken, [];
    }

    method Read(buffer: array<Byte>) returns (ok: bool)
      modifies this`filled, buffer
      ensures filled == old(filled) + [buffer]
      ensures ok == !broken
      ensures ok ==> buffer[..] == seq(buffer.Length, i => if i >= 0 then stream(i) else 0)
    {
      filled := filled + [buffer];
      ok := !broken;
      if ok {
        forall i | 0 <= i < buffer.Length {
          buffer[i] := stream(i);
        }
      }
    }
  }

  /** The key that the source yields for an algorithm. */
  function Drawn(source: RandomSource, algorithm: string): (key: Bytes)
    requires algorithm in KEY_BITS
    ensures |key| == KEY_BITS[algorithm] / 8
  {
    seq(KEY_BITS[algorithm] / 8, i => if i >= 0 then source.stream(i) else 0)
  }

  /** symkey: draws the key and writes it. The buffer that the source filled is erased. */
  method NewSymKey(disk: Disk, source: RandomSource, algorithm: string, output: Bytes, force: bool,
                   wrote: bool, partial: Bytes, tempBase: Bytes)
    returns (err: Option<KeyError>)
    requires TempFresh(disk, output, tempBase)
    modifies disk`nodes, disk`seen, disk`calls, source`filled
    ensures err.None? <==>
              && algorithm in KEY_BITS && !source.broken && wrote
              && Writable(disk, old(disk.nodes), output, force) && Quiet(disk.fails, old(disk.calls), 7)
    ensures err == Some(UnsupportedAlgorithm) <==> algorithm !in KEY_BITS
    ensures err == Some(OutRequired) <==> algorithm in KEY_BITS && output == []
    ensures err == Some(NotDrawn) <==> algorithm in KEY_BITS && output != [] && source.broken
    ensures err.None? ==> disk.calls == old(disk.calls) + 7
    ensures disk.nodes == if err.Some? then old(disk.nodes)
                          else old(disk.nodes)[disk.resolve(output).value := KeyFile(Drawn(source, algorithm))]
    ensures algorithm in KEY_BITS && output != [] && !source.broken ==>
              |source.filled| == |old(source.filled)| + 1 && IsZero(source.filled[|old(source.filled)|])
  {
    if algorithm !in KEY_BITS {
      return Some(UnsupportedAlgorithm);
    }
    if output == [] {
      return Some(OutRequired);
    }
    var key := new Byte[KEY_BITS[algorithm] / 8](_ => 0);
    var ok := source.Read(key);
    if !ok {
      return Some(NotDrawn);
    }
    assert key[..] == Drawn(source, algorithm);
    var text := KeyText(key[..]);
    var encoded := new Byte[|text|](i requires 0 <= i < |text| => text[i]);
    assert encoded[..] == text;
    var failure := WriteKey(disk, key, encoded, output, force, wrote, partial, tempBase);
    err := if failure.Some? then Some(NotWritten(failure.value)) else None;
  }

  lemma WrittenOnce(before: Files, temp: Path, d: Path, text: Bytes)
    requires temp !in before && temp != d
    ensures Installed(before, temp, d, PRIVATE, Callback([Put(0, text, PRIVATE)], true))
         == Some(before[d := Regular(text, PRIVATE)])
  {
    var script := [Put(0, text, PRIVATE)];
    var start := before[temp := Regular([], PRIVATE)];
    assert Apply(start, [temp], script, 1) == Apply1(start, [temp], script[0]);
  }

  /** The bytes decoded so far, followed by what decoding the rest yields. */
  function After(done: Bytes, rest: Option<Bytes>): Option<Bytes> {
    match rest
    case None => None
    case Some(more) => Some(done + more)
  }

  /** What the first pair of digits means for the whole text. */
  lemma DecodePair(done: Bytes, t: Bytes)
    requires |t| >= 2
    ensures HexValue(t[0]).None? || HexValue(t[1]).None? ==> DecodeHex(t).None?
    ensures HexValue(t[0]).Some? && HexValue(t[1]).Some? ==>
              (After(done, DecodeHex(t))
               == After(done + [HexValue(t[0]).value * 16 + HexValue(t[1]).value], DecodeHex(t[2..])))
  {
    hide HexValue;
    if HexValue(t[0]).Some? && HexValue(t[1]).Some? && DecodeHex(t[2..]).Some? {
      var b: Byte, rest := HexValue(t[0]).value * 16 + HexValue(t[1]).value, DecodeHex(t[2..]).value;
      assert done + ([b] + rest) == done + [b] + rest;
    }
  }

  /** With no pair left, what has been decoded is the result, unless a digit remains. */
  lemma DecodeEnd(done: Bytes, t: Bytes)
    requires |t| <= 1
    ensures After(done, DecodeHex(t)) == if t == [] then Some(done) else None
  {
    assert done + [] == done;
  }

  lemma NothingDecoded(rest: Option<Bytes>)
    ensures After([], rest) == rest
  {
    assert rest.Some? ==> [] + rest.value == rest.value;
  }

  /** hex.Decode: pairs are decoded into `dst` until one is not hexadecimal. */
  method DecodeInto(dst: array<Byte>, src: Bytes) returns (ok: bool)
    requires dst.Length == |src| / 2
    modifies dst
    ensures ok <==> DecodeHex(src).Some?
    ensures ok ==> dst[..] == DecodeHex(src).value
  {
    hide DecodeHex, HexValue;
    var i := 0;
    assert src[0..] == src && dst[..0] == [];
    NothingDecoded(DecodeHex(src));
    while i < dst.Length
      invariant 0 <= i <= dst.Length
      invariant DecodeHex(src) == After(dst[..i], DecodeHex(src[2 * i..]))
    {
      ghost var done, rest := dst[..i], src[2 * i..];
      DecodePair(done, rest);
      var high, low := HexValue(src[2 * i]), HexValue(src[2 * i + 1]);
      if high.None? || low.None? {
        return false;
      }
      dst[i] := high.value * 16 + low.value;
      i := i + 1;
      assert dst[..i] == done + [dst[i - 1]];
      assert rest[2..] == src[2 * i..];
    }
    DecodeEnd(dst[..], src[2 * i..]);
    assert dst[..i] == dst[..];
    ok := |src| % 2 == 0;
  }

  /** readHexKey from the text on: decodes it into the key, erases the text, and on any
      failure also the key. */
  method DecodeKey(key: array<Byte>, encoded: array<Byte>) returns (err: Option<KeyError>)
    requires key != encoded && key.Length == |Text.TrimSpace(encoded[..])| / 2
    modifies key, encoded
    ensures IsZero(encoded)
    ensures match ParseKey(old(encoded[..]))
            case Success(k) => err.None? && key[..] == k
            case Failure(e) => err == Some(e) && key[..] == Zeros(key.Length)
  {
    var ok := DecodeInto(key, Text.TrimSpace(encoded[..]));
    Zero(encoded);
    if !ok {
      Zero(key);
      return Some(NotHexadecimal);
    }
    if key.Length != 16 && key.Length != 24 && key.Length != 32 {
      Zero(key);
      return Some(WrongLength);
    }
    return None;
  }

  /** A regular file is found at the path. */
  predicate IsFile(disk: Disk, files: Files, path: Bytes) {
    && path != [] && disk.resolve(path).Some?
    && disk.resolve(path).value in files && files[disk.resolve(path).value].Regular?
  }

  /** readHexKey: inspects and reads the file, then decodes it. The buffer that the file was
      read into is erased. */
  method ReadHexKey(disk: Disk, path: Bytes) returns (key: array?<Byte>, err: Option<KeyError>)
    modifies disk`calls, disk`loaded
    ensures err.Some? <==> key == null
    ensures key != null <==>
              && IsFile(disk, disk.nodes, path) && Quiet(disk.fails, old(disk.calls), 2)
              && ParseKey(disk.nodes[disk.resolve(path).value].content).Success?
    ensures key != null ==>
              fresh(key) && ParseKey(disk.nodes[disk.resolve(path).value].content) == Success(key[..])
    ensures IsFile(disk, disk.nodes, path) && Quiet(disk.fails, old(disk.calls), 2) && key == null ==>
              ParseKey(disk.nodes[disk.resolve(path).value].content) == Failure(err.value)
    ensures old(disk.loaded) <= disk.loaded
    ensures forall i :: |old(disk.loaded)| <= i < |disk.loaded| ==> IsZero(disk.loaded[i])
  {
    hide ParseKey, Text.TrimSpace;
    key := null;
    if path == [] {
      return null, Some(KeyRequired);
    }
    if disk.resolve(path).None? {
      return null, Some(NotInspected);
    }
    var absolute := disk.resolve(path).value;
    var node, failed := disk.Lstat(absolute);
    if failed || node.None? {
      return null, Some(NotInspected);
    }
    if !node.value.Regular? {
      return null, Some(NotRegular);
    }
    var encoded := disk.ReadFile(absolute);
    if encoded == null {
      return null, Some(NotRead);
    }
    var decoded := new Byte[|Text.TrimSpace(encoded[..])| / 2](_ => 0);
    err := DecodeKey(decoded, encoded);
    key := if err.None? then decoded else null;
  }

  /** The file that symkey writes is read back as the key that was drawn, for every
      algorithm, on one disk on which the nine system calls of both commands succeed. */
  method WriteThenRead(disk: Disk, source: RandomSource, algorithm: string, output: Bytes, force: bool, tempBase: Bytes)
    returns (key: array?<Byte>)
    requires algorithm in KEY_BITS && !source.broken
    requires TempFresh(disk, output, tempBase)
    requires Writable(disk, disk.nodes, output, force) && Quiet(disk.fails, disk.calls, 9)
    modifies disk`nodes, disk`seen, disk`calls, disk`loaded, source`filled
    ensures key != null && key[..] == Drawn(source, algorithm)
  {
    var failure := NewSymKey(disk, source, algorithm, output, force, true, [], tempBase);
    KeyFileRoundTrip(algorithm, Drawn(source, algorithm));
    var err;
    key, err := ReadHexKey(disk, output);
  }
}
