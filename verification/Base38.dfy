/** Base-38 text as section 5.1.3 of the Matter Core Specification uses it (pc/src/chip/Base38.py).
    The source divides with a float and truncates; the values stay below 2^24, where that is integer
    division. */
module Base38 {
  import opened Bytes

  const CODES: string := "0123456789ABCDEFGHIJKLMNOPQRSTUVWXYZ-."
  const RADIX: nat := 38
  const MAX_BYTES_IN_CHUNK: nat := 3
  const MAX_ENCODED_BYTES_IN_CHUNK: nat := 5

  datatype TextError = UnknownCharacter | ImpossibleLength

  // ---------------------------------------------------------------------------
  // Numbers in radix 38 and in radix 256, least significant digit first

  function Power(base: nat, n: nat): nat {
    if n == 0 then 1 else base * Power(base, n - 1)
  }

  /** `CODES.index(c)`. */
  function IndexIn(table: string, c: char): Option<nat> {
    if table == [] then None
    else if table[0] == c then Some(0)
    else match IndexIn(table[1..], c)
      case None => None
      case Some(i) => Some(i + 1)
  }

  predicate Distinct(table: string) {
    forall i, j :: 0 <= i < j < |table| ==> table[i] != table[j]
  }

  lemma {:induction false} IndexOfEntry(table: string, d: nat)
    requires Distinct(table) && d < |table|
    ensures IndexIn(table, table[d]) == Some(d)
  {
    if d > 0 {
      IndexOfEntry(table[1..], d - 1);
    }
  }

  lemma {:induction false} EntryOfIndex(table: string, c: char)
    ensures IndexIn(table, c).Some? ==>
      IndexIn(table, c).value < |table| && table[IndexIn(table, c).value] == c
  {
    if table != [] && table[0] != c {
      EntryOfIndex(table[1..], c);
    }
  }

  /** The alphabet: digits, capital letters, hyphen and full stop. It is ordered except for the last two, so no
      character occurs twice. */
  lemma CodesExact()
    ensures |CODES| == RADIX && Distinct(CODES)
    ensures forall i :: 0 <= i < 10 ==> CODES[i] as int == '0' as int + i
    ensures forall i :: 10 <= i < 36 ==> CODES[i] as int == 'A' as int + i - 10
    ensures CODES[36] == '-' && CODES[37] == '.'
  {
    assert forall i {:trigger CODES[i]} :: 0 <= i < 10 ==> '0' <= CODES[i] <= '9' && CODES[i] as int == '0' as int + i;
    assert forall i {:trigger CODES[i]} :: 10 <= i < 36 ==>
      'A' <= CODES[i] <= 'Z' && CODES[i] as int == 'A' as int + i - 10;
    assert CODES[36] == '-' && CODES[37] == '.';
  }

  function Code(d: nat): char
    requires d < RADIX
  {
    CODES[d]
  }

  function Index(c: char): (r: Option<nat>)
    ensures r.Some? ==> r.value < RADIX
  {
    EntryOfIndex(CODES, c);
    IndexIn(CODES, c)
  }

  lemma CodeIndex(d: nat)
    requires d < RADIX
    ensures Index(Code(d)) == Some(d)
  {
    hide IndexIn;
    CodesExact();
    IndexOfEntry(CODES, d);
  }

  lemma IndexCode(c: char)
    ensures Index(c).Some? ==> Code(Index(c).value) == c
  {
    hide IndexIn;
    EntryOfIndex(CODES, c);
  }

  function Digits(value: nat, n: nat): (r: string)
    ensures |r| == n
    decreases n
  {
    if n == 0 then [] else [Code(value % RADIX)] + Digits(value / RADIX, n - 1)
  }

  function ValueOf(text: string): Option<nat> {
    if text == [] then Some(0)
    else match Index(text[0])
      case None => None
      case Some(d) =>
        match ValueOf(text[1..])
        case None => None
        case Some(v) => Some(d + RADIX * v)
  }

  function BytesValue(b: bytes): nat {
    if b == [] then 0 else b[0] + 256 * BytesValue(b[1..])
  }

  function ToBytes(value: nat, n: nat): (r: bytes)
    ensures |r| == n
    decreases n
  {
    if n == 0 then [] else [value % 256] + ToBytes(value / 256, n - 1)
  }

  lemma {:induction false} DigitsRoundTrip(value: nat, n: nat)
    requires value < Power(RADIX, n)
    ensures ValueOf(Digits(value, n)) == Some(value)
    decreases n
  {
    hide Code, Index;
    if n > 0 {
      CodeIndex(value % RADIX);
      assert value / RADIX < Power(RADIX, n - 1);
      DigitsRoundTrip(value / RADIX, n - 1);
      assert Digits(value, n)[1..] == Digits(value / RADIX, n - 1);
    }
  }

  lemma {:induction false} ValueRoundTrip(text: string)
    requires ValueOf(text).Some?
    ensures Digits(ValueOf(text).value, |text|) == text
  {
    hide Code, Index;
    if text != [] {
      IndexCode(text[0]);
      ValueRoundTrip(text[1..]);
      var d, v := Index(text[0]).value, ValueOf(text[1..]).value;
      assert (d + RADIX * v) % RADIX == d && (d + RADIX * v) / RADIX == v;
    }
  }

  lemma {:induction false} BytesRoundTrip(b: bytes)
    ensures ToBytes(BytesValue(b), |b|) == b
    ensures BytesValue(b) < Power(256, |b|)
  {
    if b != [] {
      BytesRoundTrip(b[1..]);
      var d: nat, v := b[0], BytesValue(b[1..]);
      assert (d + 256 * v) % 256 == d && (d + 256 * v) / 256 == v;
    }
  }

  lemma {:induction false} ToBytesValue(value: nat, n: nat)
    ensures BytesValue(ToBytes(value, n)) == value <==> value < Power(256, n)
    decreases n
  {
    if n > 0 {
      ToBytesValue(value / 256, n - 1);
      assert ToBytes(value, n)[1..] == ToBytes(value / 256, n - 1);
      assert value / 256 < Power(256, n - 1) <==> value < Power(256, n);
      BytesRoundTrip(ToBytes(value / 256, n - 1));
    }
  }

  // ---------------------------------------------------------------------------
  // The text form

  /** How many characters a chunk of one, two or three bytes takes. */
  function CharsFor(n: nat): nat
    requires 1 <= n <= 3
  {
    if n == 1 then 2 else if n == 2 then 4 else 5
  }

  /** And how many bytes a chunk of characters stands for, if any. */
  function BytesFor(chars: nat): Option<nat> {
    if chars == 2 then Some(1) else if chars == 4 then Some(2) else if chars == 5 then Some(3) else None
  }

  function Least(a: nat, b: nat): nat {
    if a < b then a else b
  }

  function Encoded(b: bytes): string {
    if b == [] then []
    else
      var n := Least(|b|, MAX_BYTES_IN_CHUNK);
      Digits(BytesValue(b[..n]), CharsFor(n)) + Encoded(b[n..])
  }

  function DecodedChunk(chunk: string): Result<bytes, TextError> {
    match ValueOf(chunk)
    case None => Err(UnknownCharacter)
    case Some(v) =>
      match BytesFor(|chunk|)
      case None => Err(ImpossibleLength)
      case Some(n) => Ok(ToBytes(v, n))
  }

  function Decoded(text: string): Result<bytes, TextError> {
    if text == [] then Ok([])
    else
      var n := Least(|text|, MAX_ENCODED_BYTES_IN_CHUNK);
      match DecodedChunk(text[..n])
      case Err(e) => Err(e)
      case Ok(chunk) =>
        match Decoded(text[n..])
        case Err(e) => Err(e)
        case Ok(rest) => Ok(chunk + rest)
  }

  /** The character counts are just enough: 38^2 >= 2^8, 38^4 >= 2^16, 38^5 >= 2^24. */
  lemma EnoughCharacters(n: nat)
    requires 1 <= n <= 3
    ensures Power(256, n) <= Power(RADIX, CharsFor(n))
  {
    assert Power(256, 1) == 256 && Power(256, 2) == 65536 && Power(256, 3) == 16777216;
    assert Power(RADIX, 2) == 1444;
    assert Power(RADIX, 4) == 38 * (38 * 1444) == 2085136;
    assert Power(RADIX, 5) == 79235168;
  }

  lemma ChunkRoundTrip(b: bytes)
    requires 1 <= |b| <= 3
    ensures DecodedChunk(Digits(BytesValue(b), CharsFor(|b|))) == Ok(b)
  {
    hide Power, Digits, ValueOf, BytesValue, ToBytes;
    BytesRoundTrip(b);
    EnoughCharacters(|b|);
    DigitsRoundTrip(BytesValue(b), CharsFor(|b|));
  }

  /** Decoding undoes encoding, for byte strings of every length. */
  lemma {:induction false} DecodeEncode(b: bytes)
    ensures Decoded(Encoded(b)) == Ok(b)
  {
    hide Digits, BytesValue, DecodedChunk;
    if b != [] {
      var n := Least(|b|, MAX_BYTES_IN_CHUNK);
      var first, rest := Digits(BytesValue(b[..n]), CharsFor(n)), Encoded(b[n..]);
      ChunkRoundTrip(b[..n]);
      DecodeEncode(b[n..]);
      if n < 3 {
        assert b[n..] == [];
      }
      var text := first + rest;
      assert text[..|first|] == first && text[|first|..] == rest;
      assert b[..n] + b[n..] == b;
    }
  }

  /** The length of the text, which the number of bytes determines and which determines it. */
  lemma {:induction false} EncodedLength(b: bytes)
    ensures |Encoded(b)| == 5 * (|b| / 3) + (if |b| % 3 == 0 then 0 else if |b| % 3 == 1 then 2 else 4)
  {
    hide Digits, BytesValue;
    if b != [] {
      var n := Least(|b|, MAX_BYTES_IN_CHUNK);
      EncodedLength(b[n..]);
    }
  }

  /** Every chunk of the text is worth a number that fits its bytes. */
  predicate Fits(text: string)
    decreases text
  {
    text == [] ||
    var n := Least(|text|, MAX_ENCODED_BYTES_IN_CHUNK);
    && ValueOf(text[..n]).Some? && BytesFor(n).Some?
    && ValueOf(text[..n]).value < Power(256, BytesFor(n).value)
    && Fits(text[n..])
  }

  /** The decoder does not check for overflow, so encoding undoes decoding exactly for texts whose
      chunks fit; any other accepted text decodes to the bytes of a different text. */
  lemma {:induction false} EncodeDecode(text: string)
    requires Decoded(text).Ok?
    ensures Encoded(Decoded(text).value) == text <==> Fits(text)
    ensures |Encoded(Decoded(text).value)| == |text|
    decreases text
  {
    hide Digits, ValueOf, BytesValue, ToBytes, Power;
    if text != [] {
      var n := Least(|text|, MAX_ENCODED_BYTES_IN_CHUNK);
      var v, k := ValueOf(text[..n]).value, BytesFor(n).value;
      var chunk, rest := ToBytes(v, k), Decoded(text[n..]).value;
      EncodeDecode(text[n..]);
      if n < 5 {
        assert text[n..] == [];
      }
      var all := chunk + rest;
      assert Least(|all|, 3) == k && all[..k] == chunk && all[k..] == rest;
      assert Encoded(all) == Digits(BytesValue(chunk), n) + Encoded(rest);
      ChunkExact(text[..n], v, k);
      assert text == text[..n] + text[n..];
      SplitEqual(Digits(BytesValue(chunk), n), Encoded(rest), text[..n], text[n..]);
    }
  }

  lemma SplitEqual(a: string, b: string, c: string, d: string)
    requires |a| == |c|
    ensures a + b == c + d <==> a == c && b == d
  {
    if a + b == c + d {
      assert a == (a + b)[..|a|] && b == (a + b)[|a|..];
      assert c == (c + d)[..|c|] && d == (c + d)[|c|..];
    }
  }

  lemma ChunkExact(chunk: string, v: nat, k: nat)
    requires ValueOf(chunk) == Some(v) && 1 <= k <= 3 && |chunk| == CharsFor(k)
    ensures Digits(BytesValue(ToBytes(v, k)), |chunk|) == chunk <==> v < Power(256, k)
  {
    hide Power, Digits, ValueOf, BytesValue, ToBytes;
    var w := BytesValue(ToBytes(v, k));
    ToBytesValue(v, k);
    ValueRoundTrip(chunk);
    BytesRoundTrip(ToBytes(v, k));
    EnoughCharacters(k);
    DigitsRoundTrip(w, |chunk|);
  }

  /** What is wrong with a chunk that stands for no bytes: a character outside the alphabet, or else a length that
      no chunk has. */
  lemma ChunkFaults(chunk: string)
    ensures DecodedChunk(chunk) == Err(UnknownCharacter) <==> exists i :: 0 <= i < |chunk| && chunk[i] !in CODES
    ensures DecodedChunk(chunk) == Err(ImpossibleLength) <==>
      |chunk| !in {2, 4, 5} && forall i :: 0 <= i < |chunk| ==> chunk[i] in CODES
  {
    hide ToBytes, ValueOf;
    KnownCharacters(chunk);
  }

  lemma {:induction false} KnownCharacters(text: string)
    ensures ValueOf(text).Some? <==> forall i :: 0 <= i < |text| ==> text[i] in CODES
  {
    hide Index;
    if text != [] {
      KnownCharacters(text[1..]);
      Known(text[0]);
      assert forall i :: 0 < i < |text| ==> text[i] == text[1..][i - 1];
    }
  }

  lemma Known(c: char)
    ensures Index(c).Some? <==> c in CODES
  {
    EntryOfIndex(CODES, c);
    IndexOfMember(CODES, c);
  }

  lemma {:induction false} IndexOfMember(table: string, c: char)
    ensures c in table ==> IndexIn(table, c).Some?
  {
    if table != [] && table[0] != c {
      IndexOfMember(table[1..], c);
    }
  }

  // ---------------------------------------------------------------------------
  // The two loops

  method Encode(data: bytes) returns (qrcode: string)
    ensures qrcode == Encoded(data)
  {
    hide Digits, BytesValue;
    qrcode := [];
    var i: nat := 0;
    while i < |data|
      invariant 0 <= i <= |data|
      invariant Encoded(data) == qrcode + Encoded(data[i..])
    {
      var bytesInChunk := if i + MAX_BYTES_IN_CHUNK > |data| then |data| - i else MAX_BYTES_IN_CHUNK;
      ghost var chunk := data[i..i + bytesInChunk];
      assert data[i..][..bytesInChunk] == chunk && data[i..][bytesInChunk..] == data[i + bytesInChunk..];
      var value := ChunkValue(data, i, bytesInChunk);
      var text := ChunkText(value, CharsFor(bytesInChunk));
      qrcode := qrcode + text;
      i := i + bytesInChunk;
    }
    assert data[i..] == [];
  }

  method ChunkValue(data: bytes, i: nat, n: nat) returns (value: nat)
    requires i + n <= |data|
    ensures value == BytesValue(data[i..i + n])
  {
    value := 0;
    var weight := 1;
    assert data[i..i] == [];
    for j := i to i + n
      invariant value == BytesValue(data[i..j]) && weight == Power(256, j - i)
    {
      assert data[i..j + 1] == data[i..j] + [data[j]];
      BytesValueSnoc(data[i..j], data[j]);
      var b: nat := data[j];
      value := value + b * weight;
      weight := weight * 256;
    }
  }

  lemma {:induction false} BytesValueSnoc(b: bytes, last: byte)
    ensures BytesValue(b + [last]) == BytesValue(b) + last * Power(256, |b|)
  {
    if b != [] {
      assert (b + [last])[1..] == b[1..] + [last];
      BytesValueSnoc(b[1..], last);
      var x: nat, p := last, Power(256, |b| - 1);
      assert 256 * (x * p) == x * (256 * p);
    } else {
      assert ([] + [last])[1..] == [];
    }
  }

  method ChunkText(start: nat, chars: nat) returns (text: string)
    ensures text == Digits(start, chars)
  {
    hide Code;
    text := [];
    var value: nat, needed: nat := start, chars;
    while needed > 0
      invariant needed <= chars && text + Digits(value, needed) == Digits(start, chars)
    {
      text := text + [Code(value % RADIX)];
      value := value / RADIX;
      needed := needed - 1;
    }
  }

  method Decode(qrcode: string) returns (r: Result<bytes, TextError>)
    ensures r.Ok? == Decoded(qrcode).Ok? && (r.Ok? ==> r == Decoded(qrcode))
  {
    hide DecodedChunk;
    var decoded: bytes := [];
    var i: nat := 0;
    while i < |qrcode|
      invariant 0 <= i <= |qrcode|
      invariant Decoded(qrcode).Ok? <==> Decoded(qrcode[i..]).Ok?
      invariant Decoded(qrcode).Ok? ==> Decoded(qrcode).value == decoded + Decoded(qrcode[i..]).value
    {
      var charsInChunk :=
        if i + MAX_ENCODED_BYTES_IN_CHUNK > |qrcode| then |qrcode| - i else MAX_ENCODED_BYTES_IN_CHUNK;
      ghost var chunk := qrcode[i..i + charsInChunk];
      assert qrcode[i..][..charsInChunk] == chunk && qrcode[i..][charsInChunk..] == qrcode[i + charsInChunk..];
      var part := ChunkBytes(qrcode, i, charsInChunk);
      if part.Err? {
        return part;
      }
      decoded := decoded + part.value;
      i := i + charsInChunk;
    }
    assert qrcode[i..] == [] && decoded + [] == decoded;
    r := Ok(decoded);
  }

  method ChunkBytes(qrcode: string, i: nat, n: nat) returns (r: Result<bytes, TextError>)
    requires i + n <= |qrcode|
    ensures r == DecodedChunk(qrcode[i..i + n])
  {
    hide Index;
    var value: nat := 0;
    var j := i + n;
    assert qrcode[j..i + n] == [];
    while j > i
      invariant i <= j <= i + n && ValueOf(qrcode[j..i + n]) == Some(value)
    {
      j := j - 1;
      assert qrcode[j..i + n][1..] == qrcode[j + 1..i + n];
      var d := Index(qrcode[j]);
      if d.None? {
        UnknownInside(qrcode[i..i + n], j - i);
        return Err(UnknownCharacter);
      }
      value := value * RADIX + d.value;
    }
    var bytesInChunk := BytesFor(n);
    if bytesInChunk.None? {
      return Err(ImpossibleLength);
    }
    var decoded: bytes := [];
    ghost var whole := value;
    var k: nat := 0;
    while k < bytesInChunk.value
      invariant k <= bytesInChunk.value
      invariant decoded + ToBytes(value, bytesInChunk.value - k) == ToBytes(whole, bytesInChunk.value)
    {
      decoded := decoded + [value % 256];
      value := value / 256;
      k := k + 1;
    }
    assert decoded + [] == decoded;
    r := Ok(decoded);
  }

  lemma {:induction false} UnknownInside(text: string, j: nat)
    requires j < |text| && Index(text[j]).None?
    ensures ValueOf(text).None?
  {
    hide Index;
    if j > 0 {
      UnknownInside(text[1..], j - 1);
    }
  }
}
