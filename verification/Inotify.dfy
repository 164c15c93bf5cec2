// Records of the inotify device: taken apart, and enqueued once each when coalescing.
module Inotify {
  import opened Options
  import opened ByteStrings

  /** An event; the name is decoded, and without the NULs behind it. */
  datatype RawEvent = RawEvent(wd: int, mask: nat, cookie: nat, name: string)

  /** How bytes.decode() behaves; None is a UnicodeDecodeError. */
  type Decoder = Bytes -> Option<string>

  const U32: int := 0x1_0000_0000

  // ---- struct.unpack ----

  function ToByte(n: nat): Byte
    requires n < 256
  {
    n as char
  }

  function U32Of(b: seq<Byte>): (n: nat)
    requires |b| == 4
    ensures n < U32
  {
    b[0] as int + 0x100 * b[1] as int + 0x1_0000 * b[2] as int + 0x100_0000 * b[3] as int
  }

  function U32Bytes(n: nat): (b: seq<Byte>)
    requires n < U32
    ensures |b| == 4
  {
    var n1 := n / 0x100;
    var n2 := n1 / 0x100;
    [ToByte(n % 0x100), ToByte(n1 % 0x100), ToByte(n2 % 0x100), ToByte(n2 / 0x100)]
  }

  lemma U32RoundTrip(n: nat)
    requires n < U32
    ensures U32Of(U32Bytes(n)) == n
  {
    var b := U32Bytes(n);
    var n1 := n / 0x100;
    var n2 := n1 / 0x100;
    assert b[0] as int == n % 0x100 && b[1] as int == n1 % 0x100;
    assert b[2] as int == n2 % 0x100 && b[3] as int == n2 / 0x100;
  }

  lemma BytesRoundTrip(b: seq<Byte>)
    requires |b| == 4
    ensures U32Bytes(U32Of(b)) == b
  {
    var n := U32Of(b);
    var n1 := n / 0x100;
    var n2 := n1 / 0x100;
    assert n1 == b[1] as int + 0x100 * b[2] as int + 0x1_0000 * b[3] as int;
    assert n2 == b[2] as int + 0x100 * b[3] as int;
    var r := U32Bytes(n);
    assert r[0] == b[0] && r[1] == b[1] && r[2] == b[2] && r[3] == b[3];
  }

  /** Two's complement, for the watch descriptor. */
  function Signed(n: nat): int
    requires n < U32
  {
    if n < 0x8000_0000 then n else n - U32
  }

  function Unsigned(i: int): nat
    requires -0x8000_0000 <= i < 0x8000_0000
  {
    if i >= 0 then i else i + U32
  }

  // ---- records ----

  /**
   * A NUL byte stands for a NUL character and for nothing else, as in UTF-8: NULs behind a name neither help
   * nor harm, and what does not end with one does not decode to one at the end.
   */
  ghost predicate NulsAreNuls(decode: Decoder) {
    && decode([]) == Some("")
    && (forall b: Bytes, n: nat :: n > 0 ==> decode(Padded(b, n)) == if decode(b).None? then None else Some(decode(b).value + Nuls(n)))
    && (forall b: Bytes :: EndsOpen(b) && decode(b).Some? ==> EndsOpen(decode(b).value))
  }

  function Padded(b: Bytes, n: nat): Bytes {
    b + Nuls(n)
  }

  predicate EndsOpen(s: string) {
    s == [] || s[|s| - 1] != '\0'
  }

  /** A decoder that knows only ASCII, of which UTF-8 is an extension. */
  function Ascii(): Decoder {
    (b: Bytes) => if forall i :: 0 <= i < |b| ==> b[i] as int < 128 then Some(b) else None
  }

  lemma AsciiNuls()
    ensures NulsAreNuls(Ascii())
  {
    forall b: Bytes, n: nat | n > 0
      ensures Ascii()(Padded(b, n)) == if Ascii()(b).None? then None else Some(Ascii()(b).value + Nuls(n))
    {
      assert forall i :: 0 <= i < |b| ==> Padded(b, n)[i] == b[i];
    }
  }

  /** A record as the kernel writes it: the bytes of the name with some NULs behind. */
  datatype Record = Record(wd: int, mask: nat, cookie: nat, name: Bytes, padding: nat)

  ghost predicate Valid(x: Record) {
    && -0x8000_0000 <= x.wd < 0x8000_0000 && x.mask < U32 && x.cookie < U32
    && |x.name| + x.padding < U32 && EndsOpen(x.name)
  }

  function Encode(x: Record): (r: Bytes)
    requires Valid(x)
    ensures |r| == 16 + |x.name| + x.padding
  {
    U32Bytes(Unsigned(x.wd)) + U32Bytes(x.mask) + U32Bytes(x.cookie) + U32Bytes(|x.name| + x.padding) + Padded(x.name, x.padding)
  }

  function EncodeAll(xs: seq<Record>): Bytes
    requires forall x :: x in xs ==> Valid(x)
  {
    if xs == [] then [] else Encode(xs[0]) + EncodeAll(xs[1..])
  }

  /** struct inotify_event: four numbers of four bytes, the low byte first. */
  lemma RecordLayout(x: Record)
    requires Valid(x)
    ensures var r, wd, len := Encode(x), Unsigned(x.wd), |x.name| + x.padding;
            && r[0] as int == wd % 0x100 && r[3] as int == wd / 0x100_0000
            && r[4] as int == x.mask % 0x100 && r[7] as int == x.mask / 0x100_0000
            && r[8] as int == x.cookie % 0x100 && r[11] as int == x.cookie / 0x100_0000
            && r[12] as int == len % 0x100 && r[15] as int == len / 0x100_0000
            && r[16..] == x.name + Nuls(x.padding)
  {
    U32Ends(Unsigned(x.wd));
    U32Ends(x.mask);
    U32Ends(x.cookie);
    U32Ends(|x.name| + x.padding);
    hide U32Bytes;
  }

  lemma U32Ends(n: nat)
    requires n < U32
    ensures U32Bytes(n)[0] as int == n % 0x100 && U32Bytes(n)[3] as int == n / 0x100_0000
  {
    assert n / 0x100 / 0x100 / 0x100 == n / 0x100_0000;
  }

  /** The event of a record; None if its name does not decode. */
  function EventOf(decode: Decoder, x: Record): Option<RawEvent> {
    var name := decode(x.name);
    if name.None? then None else Some(RawEvent(x.wd, x.mask, x.cookie, name.value))
  }

  /** The events before the first name that does not decode. */
  function EventsOf(decode: Decoder, xs: seq<Record>): seq<RawEvent> {
    if xs == [] || EventOf(decode, xs[0]).None? then []
    else [EventOf(decode, xs[0]).value] + EventsOf(decode, xs[1..])
  }

  predicate AllDecode(decode: Decoder, xs: seq<Record>) {
    forall i :: 0 <= i < |xs| ==> decode(xs[i].name).Some?
  }

  /**
   * The first record, and how long it is; None is a struct.error for a buffer that ends too early, or a
   * UnicodeDecodeError.
   */
  function ParseOne(decode: Decoder, r: Bytes): (p: Option<(RawEvent, nat)>)
    ensures p.Some? ==> 16 <= p.value.1 <= |r|
  {
    if |r| < 16 then None
    else
      var len := U32Of(r[12..16]);
      if |r| < 16 + len then None
      else
        var uname := decode(r[16..16 + len]);
        if uname.None? then None
        else
          var e := RawEvent(Signed(U32Of(r[0..4])), U32Of(r[4..8]), U32Of(r[8..12]), RStrip(uname.value, '\0'));
          Some((e, 16 + len))
  }

  /** All events up to the end, or up to the error. */
  function ParseAll(decode: Decoder, r: Bytes): (seq<RawEvent>, bool)
    decreases |r|
  {
    if r == [] then ([], true)
    else
      var p := ParseOne(decode, r);
      if p.None? then ([], false)
      else
        var (es, ok) := ParseAll(decode, r[p.value.1..]);
        ([p.value.0] + es, ok)
  }

  lemma {:induction false} RStripNuls(s: string, n: nat)
    requires EndsOpen(s)
    ensures RStrip(s + Nuls(n), '\0') == s
  {
    if n == 0 {
      assert s + Nuls(0) == s;
    } else {
      assert (s + Nuls(n))[..|s| + n - 1] == s + Nuls(n - 1);
      RStripNuls(s, n - 1);
    }
  }

  lemma {:induction false} RStripInverse(raw: Bytes)
    ensures var name := RStrip(raw, '\0');
            |name| <= |raw| && raw == name + Nuls(|raw| - |name|) && EndsOpen(name)
  {
    if raw != [] && raw[|raw| - 1] == '\0' {
      RStripInverse(raw[..|raw| - 1]);
      assert raw == raw[..|raw| - 1] + ['\0'];
    }
  }

  /** Decoding and then dropping the NULs is decoding without them. */
  lemma DecodePadded(decode: Decoder, name: Bytes, n: nat)
    requires NulsAreNuls(decode) && EndsOpen(name)
    ensures decode(Padded(name, n)).Some? <==> decode(name).Some?
    ensures decode(name).Some? ==> RStrip(decode(Padded(name, n)).value, '\0') == decode(name).value
  {
    if n == 0 {
      assert Padded(name, 0) == name;
      if decode(name).Some? {
        RStripNuls(decode(name).value, 0);
        assert decode(name).value + Nuls(0) == decode(name).value;
      }
    } else if decode(name).Some? {
      RStripNuls(decode(name).value, n);
    }
  }

  lemma ParseEncoded(decode: Decoder, x: Record, more: Bytes)
    requires NulsAreNuls(decode) && Valid(x)
    ensures ParseOne(decode, Encode(x) + more) ==
            if EventOf(decode, x).None? then None else Some((EventOf(decode, x).value, |Encode(x)|))
  {
    var r := Encode(x) + more;
    U32RoundTrip(Unsigned(x.wd));
    U32RoundTrip(x.mask);
    U32RoundTrip(x.cookie);
    U32RoundTrip(|x.name| + x.padding);
    DecodePadded(decode, x.name, x.padding);
    var a, b, c, d := U32Bytes(Unsigned(x.wd)), U32Bytes(x.mask), U32Bytes(x.cookie), U32Bytes(|x.name| + x.padding);
    var raw := Padded(x.name, x.padding);
    assert |raw| == |x.name| + x.padding;
    hide U32Bytes, U32Of, RStrip, Nuls, NulsAreNuls, Padded;
    assert r == a + b + c + d + raw + more;
    Slices(a, b, c, d, raw, more);
  }

  lemma Slices(a: Bytes, b: Bytes, c: Bytes, d: Bytes, raw: Bytes, more: Bytes)
    requires |a| == |b| == |c| == |d| == 4
    ensures var r := a + b + c + d + raw + more;
            r[0..4] == a && r[4..8] == b && r[8..12] == c && r[12..16] == d && r[16..16 + |raw|] == raw
  {
  }

  /**
   * What was encoded is read back, exactly and in order, up to the first name that does not decode; reading
   * ends without an error exactly if every name does.
   */
  lemma {:induction false} ParseAllEncoded(decode: Decoder, xs: seq<Record>)
    requires NulsAreNuls(decode) && forall x :: x in xs ==> Valid(x)
    ensures ParseAll(decode, EncodeAll(xs)) == (EventsOf(decode, xs), AllDecode(decode, xs))
  {
    hide Valid, Encode, ParseOne, NulsAreNuls, AllDecode;
    if xs == [] {
      NoRecords(decode);
    } else {
      var x, rest := xs[0], xs[1..];
      assert x in xs && xs == [x] + rest;
      ParseEncoded(decode, x, EncodeAll(rest));
      ParseAllEncoded(decode, rest);
      FirstRecord(decode, x, rest);
      assert (Encode(x) + EncodeAll(rest))[|Encode(x)|..] == EncodeAll(rest);
    }
  }

  lemma ParsedIsRecord(decode: Decoder, r: Bytes) returns (x: Record)
    requires NulsAreNuls(decode) && ParseOne(decode, r).Some?
    ensures Valid(x) && EventOf(decode, x) == Some(ParseOne(decode, r).value.0) && Encode(x) == r[..ParseOne(decode, r).value.1]
  {
    hide U32Of, U32Bytes, RStrip, Nuls, NulsAreNuls;
    var (e, n) := ParseOne(decode, r).value;
    var raw := r[16..n];
    RStripInverse(raw);
    var name := RStrip(raw, '\0');
    x := Record(e.wd, e.mask, e.cookie, name, |raw| - |name|);
    assert Padded(name, x.padding) == raw;
    DecodePadded(decode, name, x.padding);
    var a, b, c, d := r[0..4], r[4..8], r[8..12], r[12..16];
    BytesRoundTrip(a);
    BytesRoundTrip(b);
    BytesRoundTrip(c);
    BytesRoundTrip(d);
    SignedRoundTrip(U32Of(a));
    hide Signed, Unsigned, Padded;
    assert r[..n] == a + b + c + d + raw;
  }

  lemma SignedRoundTrip(n: nat)
    requires n < U32
    ensures -0x8000_0000 <= Signed(n) < 0x8000_0000 && Unsigned(Signed(n)) == n
  {
  }

  lemma NoRecords(decode: Decoder)
    ensures EncodeAll([]) == [] && EventsOf(decode, []) == [] && AllDecode(decode, [])
  {
  }

  lemma FirstRecord(decode: Decoder, x: Record, rest: seq<Record>)
    requires Valid(x) && forall y :: y in rest ==> Valid(y)
    ensures var xs := [x] + rest;
            && (forall y :: y in xs ==> Valid(y))
            && EncodeAll(xs) == Encode(x) + EncodeAll(rest)
            && EventsOf(decode, xs) == (if EventOf(decode, x).None? then [] else [EventOf(decode, x).value] + EventsOf(decode, rest))
            && (AllDecode(decode, xs) <==> EventOf(decode, x).Some? && AllDecode(decode, rest))
  {
    var xs := [x] + rest;
    assert xs[0] == x && xs[1..] == rest;
    assert forall i :: 0 <= i < |rest| ==> xs[i + 1] == rest[i];
    hide Valid, Encode;
  }

  /** And reading ends without an error only on such encodings. */
  lemma {:induction false} ParsedIsEncoded(decode: Decoder, r: Bytes)
    requires NulsAreNuls(decode) && ParseAll(decode, r).1
    ensures exists xs :: (forall x :: x in xs ==> Valid(x)) && r == EncodeAll(xs)
                         && AllDecode(decode, xs) && ParseAll(decode, r).0 == EventsOf(decode, xs)
    decreases |r|
  {
    hide Valid, Encode, ParseOne, NulsAreNuls, AllDecode;
    if r == [] {
      NoRecords(decode);
      assert EncodeAll([]) == r;
    } else {
      var n := ParseOne(decode, r).value.1;
      var x := ParsedIsRecord(decode, r);
      ParsedIsEncoded(decode, r[n..]);
      var rest :| (forall y :: y in rest ==> Valid(y)) && r[n..] == EncodeAll(rest)
                  && AllDecode(decode, rest) && ParseAll(decode, r[n..]).0 == EventsOf(decode, rest);
      FirstRecord(decode, x, rest);
      assert r == r[..n] + r[n..];
    }
  }

  // ---- the text of an event ----

  function Digit(d: nat): char
    requires d < 16
  {
    if d < 10 then '0' + d as char else 'a' + (d - 10) as char
  }

  function DigitValue(c: char): int {
    if c <= '9' then c as int - '0' as int else c as int - 'a' as int + 10
  }

  function Digits(n: nat, base: nat): (s: string)
    requires 2 <= base <= 16
    ensures s != ""
  {
    if n < base then [Digit(n)] else Digits(n / base, base) + [Digit(n % base)]
  }

  function Number(s: string, base: nat): int {
    if s == "" then 0 else Number(s[..|s| - 1], base) * base + DigitValue(s[|s| - 1])
  }

  /** `str(n)` */
  function Decimal(n: int): string {
    if n < 0 then "-" + Digits(-n, 10) else Digits(n, 10)
  }

  /** How a name is shown. */
  function Shown(name: string): string {
    if name == "" then "''" else name
  }

  /** `str(raw_event)`: attributes in alphabetical order, the mask in hexadecimal. */
  function EventText(e: RawEvent): string {
    "<_RawEvent cookie=" + (Decimal(e.cookie) + " " + ("mask=0x" + (Digits(e.mask, 16) + " " +
    ("name=" + (Shown(e.name) + " wd" + "=" + Decimal(e.wd) + " >")))))
  }

  lemma DivMod(n: nat, base: nat)
    requires 2 <= base <= n
    ensures n / base * base + n % base == n && n / base < n && n % base < base
  {
    assert n == base * (n / base) + n % base;
    assert n / base >= 1;
  }

  lemma DigitsStep(n: nat, base: nat)
    requires 2 <= base <= 16
    ensures var d := if n < base then n else n % base;
            d < base && Digits(n, base) == (if n < base then "" else Digits(n / base, base)) + [Digit(d)]
  {
  }

  lemma NumberStep(s: string, d: nat, base: nat)
    requires d < 16
    ensures Number(s + [Digit(d)], base) == Number(s, base) * base + d
    ensures '0' <= Digit(d) <= '9' || 'a' <= Digit(d) <= 'f'
  {
    var t := s + [Digit(d)];
    assert t[..|t| - 1] == s && t[|t| - 1] == Digit(d) && DigitValue(Digit(d)) == d;
  }

  lemma {:induction false} DigitsNumber(n: nat, base: nat)
    requires 2 <= base <= 16
    ensures Number(Digits(n, base), base) == n
  {
    DigitsStep(n, base);
    if n < base {
      NumberStep("", n, base);
      assert Number("", base) == 0;
    } else {
      hide Digits, Number, Digit;
      DivMod(n, base);
      DigitsNumber(n / base, base);
      NumberStep(Digits(n / base, base), n % base, base);
    }
  }

  lemma {:induction false} DigitsChars(n: nat, base: nat)
    requires 2 <= base <= 16
    ensures forall c :: c in Digits(n, base) ==> '0' <= c <= '9' || 'a' <= c <= 'f'
  {
    DigitsStep(n, base);
    NumberStep("", if n < base then n else n % base, base);
    hide Digits, Number, Digit;
    if n >= base {
      DivMod(n, base);
      DigitsChars(n / base, base);
    }
  }

  lemma DigitsSame(n: nat, m: nat, base: nat)
    requires 2 <= base <= 16 && Digits(n, base) == Digits(m, base)
    ensures n == m
  {
    DigitsNumber(n, base);
    DigitsNumber(m, base);
  }

  lemma DecimalSign(n: int)
    ensures Decimal(n) != "" && (Decimal(n)[0] == '-' <==> n < 0)
    ensures n < 0 ==> Decimal(n)[1..] == Digits(-n, 10)
  {
    DigitsChars(if n < 0 then -n else n, 10);
    hide Digits;
    assert Decimal(n)[0] in Decimal(n);
  }

  lemma DecimalSame(n: int, m: int)
    requires Decimal(n) == Decimal(m)
    ensures n == m
  {
    DecimalSign(n);
    DecimalSign(m);
    hide Digits;
    if n < 0 {
      DigitsSame(-n, -m, 10);
    } else {
      DigitsSame(n, m, 10);
    }
  }

  lemma DecimalChars(n: int)
    ensures ' ' !in Decimal(n) && '=' !in Decimal(n)
  {
    DigitsChars(if n < 0 then -n else n, 10);
    hide Digits;
  }

  /** The parts around the first separator are determined. */
  lemma FirstSeparator(a: string, b: string, x: string, y: string, sep: char)
    requires sep !in a && sep !in x && a + [sep] + b == x + [sep] + y
    ensures a == x && b == y
  {
    var s := a + [sep] + b;
    assert s[|a|] == sep && s[|x|] == sep;
    assert |a| == |x| by {
      assert forall i :: 0 <= i < |a| ==> s[i] == a[i];
      assert forall i :: 0 <= i < |x| ==> s[i] == x[i];
    }
    assert s[..|a|] == a && s[..|x|] == x && s[|a| + 1..] == b && s[|x| + 1..] == y;
  }

  /** The parts around the last separator are determined. */
  lemma LastSeparator(a: string, b: string, x: string, y: string, sep: char)
    requires sep !in b && sep !in y && a + [sep] + b == x + [sep] + y
    ensures a == x && b == y
  {
    var s := a + [sep] + b;
    assert s[|a|] == sep && s[|x|] == sep;
    assert |a| == |x| by {
      assert forall i :: |a| < i < |s| ==> s[i] == b[i - |a| - 1];
      assert forall i :: |x| < i < |s| ==> s[i] == y[i - |x| - 1];
    }
    assert s[..|a|] == a && s[..|x|] == x && s[|a| + 1..] == b && s[|x| + 1..] == y;
  }

  lemma SamePrefix(p: string, a: string, b: string)
    requires p + a == p + b
    ensures a == b
  {
    assert (p + a)[|p|..] == a && (p + b)[|p|..] == b;
  }

  lemma SameSuffix(a: string, b: string, p: string)
    requires a + p == b + p
    ensures a == b
  {
    assert (a + p)[..|a + p| - |p|] == a && (b + p)[..|b + p| - |p|] == b;
  }

  lemma NameText(n: string, wd: int, m: string, wd': int)
    requires Shown(n) + " wd" + "=" + Decimal(wd) + " >" == Shown(m) + " wd" + "=" + Decimal(wd') + " >"
    ensures Shown(n) == Shown(m) && wd == wd'
  {
    SameSuffix(Shown(n) + " wd" + "=" + Decimal(wd), Shown(m) + " wd" + "=" + Decimal(wd'), " >");
    DecimalChars(wd);
    DecimalChars(wd');
    LastSeparator(Shown(n) + " wd", Decimal(wd), Shown(m) + " wd", Decimal(wd'), '=');
    SameSuffix(Shown(n), Shown(m), " wd");
    DecimalSame(wd, wd');
  }

  lemma MaskText(a: nat, s: string, b: nat, t: string)
    requires "mask=0x" + (Digits(a, 16) + " " + s) == "mask=0x" + (Digits(b, 16) + " " + t)
    ensures a == b && s == t
  {
    SamePrefix("mask=0x", Digits(a, 16) + " " + s, Digits(b, 16) + " " + t);
    DigitsChars(a, 16);
    DigitsChars(b, 16);
    hide Digits;
    FirstSeparator(Digits(a, 16), s, Digits(b, 16), t, ' ');
    DigitsSame(a, b, 16);
  }

  /** Events have the same text if they are the same, or if one has no name where the other is named ''. */
  lemma TextSameIff(e: RawEvent, f: RawEvent)
    ensures EventText(e) == EventText(f) <==>
      && e.wd == f.wd && e.mask == f.mask && e.cookie == f.cookie
      && (e.name == f.name || (e.name == "" && f.name == "''") || (e.name == "''" && f.name == ""))
  {
    if EventText(e) == EventText(f) {
      var en := Shown(e.name) + " wd" + "=" + Decimal(e.wd) + " >";
      var fn := Shown(f.name) + " wd" + "=" + Decimal(f.wd) + " >";
      var em := "mask=0x" + (Digits(e.mask, 16) + " " + ("name=" + en));
      var fm := "mask=0x" + (Digits(f.mask, 16) + " " + ("name=" + fn));
      hide Decimal, Digits;
      SamePrefix("<_RawEvent cookie=", Decimal(e.cookie) + " " + em, Decimal(f.cookie) + " " + fm);
      DecimalChars(e.cookie);
      DecimalChars(f.cookie);
      FirstSeparator(Decimal(e.cookie), em, Decimal(f.cookie), fm, ' ');
      DecimalSame(e.cookie, f.cookie);
      MaskText(e.mask, "name=" + en, f.mask, "name=" + fn);
      SamePrefix("name=", en, fn);
      NameText(e.name, e.wd, f.name, f.wd);
    }
  }

  // ---- coalescing ----

  function Texts(es: seq<RawEvent>): set<string> {
    set e | e in es :: EventText(e)
  }

  /** The events whose text is new, given the texts seen before. */
  function Fresh(seen: set<string>, es: seq<RawEvent>): seq<RawEvent> {
    if es == [] then []
    else
      var front, last := es[..|es| - 1], es[|es| - 1];
      if EventText(last) in seen + Texts(front) then Fresh(seen, front) else Fresh(seen, front) + [last]
  }

  lemma FreshOneMore(seen: set<string>, es: seq<RawEvent>, e: RawEvent)
    ensures Fresh(seen, []) == [] && Texts([]) == {}
    ensures Texts(es + [e]) == Texts(es) + {EventText(e)}
    ensures Fresh(seen, es + [e]) == Fresh(seen, es) + if EventText(e) in seen + Texts(es) then [] else [e]
  {
    assert (es + [e])[..|es|] == es;
    forall x | x in es + [e] ensures x in es || x == e {
    }
    assert forall x :: x in es || x == e ==> x in es + [e];
  }

  /** The events of some buffers. */
  function EventsOfAll(decode: Decoder, rs: seq<Bytes>): seq<RawEvent> {
    if rs == [] then [] else EventsOfAll(decode, rs[..|rs| - 1]) + ParseAll(decode, rs[|rs| - 1]).0
  }

  lemma FreshNothing()
    ensures Fresh({}, []) == [] && Texts([]) == {}
  {
  }

  lemma {:induction false} FreshAppend(seen: set<string>, a: seq<RawEvent>, b: seq<RawEvent>)
    ensures Fresh(seen, a + b) == Fresh(seen, a) + Fresh(seen + Texts(a), b)
    ensures Texts(a + b) == Texts(a) + Texts(b)
    decreases |b|
  {
    hide EventText, Fresh, Texts;
    FreshOneMore(seen + Texts(a), [], RawEvent(0, 0, 0, ""));
    if b == [] {
      assert a + b == a && Fresh(seen, a) + [] == Fresh(seen, a) && Texts(a) + {} == Texts(a);
    } else {
      var front, last := b[..|b| - 1], b[|b| - 1];
      FreshAppend(seen, a, front);
      assert b == front + [last] && a + b == (a + front) + [last];
      FreshOneMore(seen, a + front, last);
      FreshOneMore(seen + Texts(a), front, last);
      assert seen + (Texts(a) + Texts(front)) == seen + Texts(a) + Texts(front);
    }
  }

  /** Events that coalesce. */
  predicate Same(e: RawEvent, f: RawEvent) {
    && e.wd == f.wd && e.mask == f.mask && e.cookie == f.cookie
    && (e.name == f.name || (e.name == "" && f.name == "''") || (e.name == "''" && f.name == ""))
  }

  ghost predicate FirstAt(es: seq<RawEvent>, i: nat)
    requires i < |es|
  {
    forall j :: 0 <= j < i ==> !Same(es[j], es[i])
  }

  /** The places of the first event of each kind, in order. */
  ghost predicate Firsts(es: seq<RawEvent>, at: seq<nat>) {
    && (forall k :: 0 <= k < |at| ==> at[k] < |es|)
    && (forall k, l :: 0 <= k < l < |at| ==> at[k] < at[l])
    && (forall i :: 0 <= i < |es| ==> (i in at <==> FirstAt(es, i)))
  }

  function Pick(es: seq<RawEvent>, at: seq<nat>): seq<RawEvent>
    requires forall k :: 0 <= k < |at| ==> at[k] < |es|
  {
    seq(|at|, k requires 0 <= k < |at| => es[at[k]])
  }

  lemma NewIffFirst(es: seq<RawEvent>)
    requires es != []
    ensures EventText(es[|es| - 1]) in {} + Texts(es[..|es| - 1]) <==> !FirstAt(es, |es| - 1)
  {
    hide EventText;
    var front, last, n := es[..|es| - 1], es[|es| - 1], |es| - 1;
    forall j | 0 <= j < n ensures Same(es[j], last) <==> EventText(es[j]) == EventText(last) {
      TextSameIff(es[j], last);
    }
    hide Same;
    assert forall e :: e in front <==> exists j :: 0 <= j < n && es[j] == e;
  }

  /** Coalescing keeps the first event of each kind, in order, and nothing else. */
  lemma {:induction false} FreshIsFirsts(es: seq<RawEvent>) returns (at: seq<nat>)
    ensures Firsts(es, at) && Fresh({}, es) == Pick(es, at)
  {
    hide EventText, FirstAt, Fresh, Pick, Texts;
    FreshNothing();
    if es == [] {
      at := [];
      PickNothing(es);
    } else {
      var front, last, n := es[..|es| - 1], es[|es| - 1], |es| - 1;
      at := FreshIsFirsts(front);
      assert es == front + [last];
      FrontFirsts(front, last);
      NewIffFirst(es);
      FreshOneMore({}, front, last);
      PickMore(front, last, at);
      if FirstAt(es, n) {
        at := at + [n];
      }
    }
  }

  lemma FrontFirsts(front: seq<RawEvent>, last: RawEvent)
    ensures forall i :: 0 <= i < |front| ==> (FirstAt(front, i) <==> FirstAt(front + [last], i))
  {
    assert forall i :: 0 <= i < |front| ==> (front + [last])[i] == front[i];
    forall i | 0 <= i < |front| ensures FirstAt(front, i) <==> FirstAt(front + [last], i) {
      assert forall j :: 0 <= j < i ==> (Same((front + [last])[j], front[i]) <==> Same(front[j], front[i]));
    }
  }

  lemma PickNothing(es: seq<RawEvent>)
    ensures Pick(es, []) == []
  {
  }

  lemma PickMore(front: seq<RawEvent>, last: RawEvent, at: seq<nat>)
    requires forall k :: 0 <= k < |at| ==> at[k] < |front|
    ensures forall k :: 0 <= k < |at + [|front|]| ==> (at + [|front|])[k] < |front + [last]|
    ensures forall i :: i in at + [|front|] <==> i in at || i == |front|
    ensures Pick(front + [last], at) == Pick(front, at)
    ensures Pick(front, at) + [] == Pick(front, at)
    ensures Pick(front + [last], at + [|front|]) == Pick(front, at) + [last]
  {
    var more := at + [|front|];
    assert forall i :: i in more ==> i in at || i == |front|;
    assert more[|at|] == |front|;
    assert forall i :: i in at ==> i in more;
  }

  /** The queue and the set after some events were read. */
  function Queue(on: bool, q: seq<RawEvent>, seen: set<string>, es: seq<RawEvent>): seq<RawEvent> {
    q + if on then Fresh(seen, es) else es
  }

  function Seen(on: bool, seen: set<string>, es: seq<RawEvent>): set<string> {
    if on then seen + Texts(es) else seen
  }

  lemma QueueStep(on: bool, q: seq<RawEvent>, seen: set<string>, es: seq<RawEvent>, e: RawEvent)
    ensures Queue(on, q, seen, es + [e]) ==
            Queue(on, q, seen, es) + if on && EventText(e) in Seen(on, seen, es) then [] else [e]
    ensures Seen(on, seen, es + [e]) == if on then Seen(on, seen, es) + {EventText(e)} else Seen(on, seen, es)
  {
    hide EventText;
    FreshOneMore(seen, es, e);
    hide Fresh, Texts;
  }

  lemma ReadNothing(decode: Decoder, r: Bytes, on: bool, q: seq<RawEvent>, seen: set<string>)
    ensures r[0..] == r && [] + ParseAll(decode, r).0 == ParseAll(decode, r).0
    ensures Queue(on, q, seen, []) == q && Seen(on, seen, []) == seen
  {
    hide EventText, ParseAll, Digits, Decimal;
    FreshOneMore(seen, [], RawEvent(0, 0, 0, ""));
    hide Fresh, Texts;
    assert q + [] == q && seen + {} == seen;
  }

  lemma ParseStep(decode: Decoder, r: Bytes, es: seq<RawEvent>)
    ensures r == [] ==> ParseAll(decode, r) == ([], true) && es + ParseAll(decode, r).0 == es
    ensures r != [] && ParseOne(decode, r).None? ==> ParseAll(decode, r) == ([], false) && es + ParseAll(decode, r).0 == es
    ensures r != [] && ParseOne(decode, r).Some? ==>
      var (e, n) := ParseOne(decode, r).value;
      es + ParseAll(decode, r).0 == es + [e] + ParseAll(decode, r[n..]).0 && ParseAll(decode, r).1 == ParseAll(decode, r[n..]).1
  {
    hide ParseOne;
  }

  class Notifier {
    var eventq: seq<RawEvent>
    var eventset: set<string>
    var coalesce: bool
    const threshold: nat
    const decode: Decoder

    constructor (threshold: nat, decode: Decoder)
      ensures eventq == [] && eventset == {} && !coalesce && this.threshold == threshold && this.decode == decode
    {
      eventq, eventset, coalesce, this.threshold, this.decode := [], {}, false, threshold, decode;
    }

    /** `coalesce_events(coalesce)` */
    method CoalesceEvents(on: bool)
      modifies this
      ensures coalesce == on && eventq == old(eventq) && eventset == if on then old(eventset) else {}
    {
      coalesce := on;
      if !on {
        eventset := {};
      }
    }

    /**
     * `read_events()`, r being what the device has to read; false is a struct.error or a
     * UnicodeDecodeError. All records before it are enqueued, or when coalescing, those that are new.
     */
    method ReadEvents(r: Bytes) returns (ok: bool)
      modifies this
      ensures coalesce == old(coalesce)
      ensures |r| < threshold ==> ok && eventq == old(eventq) && eventset == old(eventset)
      ensures |r| >= threshold ==>
        && ok == ParseAll(decode, r).1
        && eventq == Queue(coalesce, old(eventq), old(eventset), ParseAll(decode, r).0)
        && eventset == Seen(coalesce, old(eventset), ParseAll(decode, r).0)
    {
      hide EventText, ParseOne, ParseAll, Queue, Seen;
      if |r| < threshold {
        return true;
      }
      var rsum := 0;
      ghost var es, q0, s0 := [], eventq, eventset;
      ReadNothing(decode, r, coalesce, eventq, eventset);
      while rsum < |r|
        invariant rsum <= |r| && coalesce == old(coalesce)
        invariant ParseAll(decode, r) == (es + ParseAll(decode, r[rsum..]).0, ParseAll(decode, r[rsum..]).1)
        invariant eventq == Queue(coalesce, q0, s0, es) && eventset == Seen(coalesce, s0, es)
      {
        ghost var rest := r[rsum..];
        var p := ParseOne(decode, r[rsum..]);
        ParseStep(decode, rest, es);
        if p.None? {
          return false;
        }
        var (rawevent, size) := p.value;
        assert rest[size..] == r[rsum + size..];
        QueueStep(coalesce, q0, s0, es, rawevent);
        Enqueue(rawevent);
        es := es + [rawevent];
        rsum := rsum + size;
      }
      ParseStep(decode, r[rsum..], es);
      ok := true;
    }

    /**
     * Several reads in a row, ending with an error or without, when nothing is enqueued and nothing seen:
     * the first of each kind of event.
     */
    method ReadMany(rs: seq<Bytes>)
      requires coalesce && eventq == [] && eventset == {}
      requires forall r :: r in rs ==> |r| >= threshold
      modifies this
      ensures coalesce && eventq == Fresh({}, EventsOfAll(decode, rs))
    {
      hide EventText, ParseAll, Fresh, Texts;
      FreshNothing();
      for i := 0 to |rs|
        invariant coalesce && eventq == Fresh({}, EventsOfAll(decode, rs[..i])) && eventset == Texts(EventsOfAll(decode, rs[..i]))
      {
        assert rs[i] in rs && rs[..i + 1][..i] == rs[..i];
        FreshAppend({}, EventsOfAll(decode, rs[..i]), ParseAll(decode, rs[i]).0);
        assert {} + eventset == eventset;
        var ok := ReadEvents(rs[i]);
      }
      assert rs[..|rs|] == rs;
    }

    /** The end of its loop. */
    method Enqueue(rawevent: RawEvent)
      modifies this
      ensures coalesce == old(coalesce)
      ensures eventq == old(eventq) + if coalesce && EventText(rawevent) in old(eventset) then [] else [rawevent]
      ensures eventset == if coalesce then old(eventset) + {EventText(rawevent)} else old(eventset)
    {
      hide EventText;
      if coalesce {
        var raweventstr := EventText(rawevent);
        if raweventstr !in eventset {
          eventset := eventset + {raweventstr};
          eventq := eventq + [rawevent];
        } else {
          assert eventq + [] == eventq;
        }
      } else {
        eventq := eventq + [rawevent];
      }
    }

    /** `process_events()`: what is handed on, one by one. */
    method ProcessEvents() returns (processed: seq<RawEvent>)
      modifies this
      ensures processed == old(eventq) && eventq == [] && coalesce == old(coalesce)
      ensures eventset == if coalesce then {} else old(eventset)
    {
      processed := [];
      while eventq != []
        invariant processed + eventq == old(eventq) && coalesce == old(coalesce) && eventset == old(eventset)
        decreases |eventq|
      {
        processed, eventq := processed + [eventq[0]], eventq[1..];
      }
      if coalesce {
        eventset := {};
      }
    }
  }
}
