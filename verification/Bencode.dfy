/** Bencoding: the printer, the recursive-descent decoder with its leniencies, and canonical form. */
module Bencode {
  import opened Bytes

  datatype Value =
    | Int(i: int)
    | Str(s: bytes)
    | List(items: seq<Value>)
    | Dict(entries: seq<Entry>)

  /** A dictionary is kept sorted by key, as an ordered map is. */
  datatype Entry = Entry(key: bytes, value: Value)

  const MAX_INT: int := 0x7FFF_FFFF_FFFF_FFFF
  const MIN_INT: int := -0x8000_0000_0000_0000

  const DASH: byte := 45
  const ZERO: byte := 48
  const NINE: byte := 57
  const COLON: byte := 58
  const D: byte := 100
  const E: byte := 101
  const I: byte := 105
  const L: byte := 108

  predicate IsDigit(c: byte) {
    ZERO <= c <= NINE
  }

  predicate AllDigits(s: bytes) {
    forall k :: 0 <= k < |s| ==> IsDigit(s[k])
  }

  /** The order of an ordered map keyed by byte strings. */
  predicate Less(a: bytes, b: bytes) {
    b != [] && (a == [] || a[0] < b[0] || (a[0] == b[0] && Less(a[1..], b[1..])))
  }

  predicate Ascending(es: seq<Entry>) {
    forall j, k :: 0 <= j < k < |es| ==> Less(es[j].key, es[k].key)
  }

  /** A value the original can hold: 64-bit integers, lengths a 64-bit integer can count, sorted dictionaries. */
  predicate Valid(v: Value) {
    match v
    case Int(i) => MIN_INT <= i <= MAX_INT
    case Str(s) => |s| <= MAX_INT
    case List(items) => forall k :: 0 <= k < |items| ==> Valid(items[k])
    case Dict(es) => Ascending(es) && forall k :: 0 <= k < |es| ==> |es[k].key| <= MAX_INT && Valid(es[k].value)
  }

  // ---- Decimal numbers ----

  /** The decimal digits of n, without leading zeros. */
  function Dec(n: nat): (r: bytes)
    ensures r != [] && AllDigits(r)
  {
    if n < 10 then [ZERO + n] else Dec(n / 10) + [ZERO + n % 10]
  }

  function DecInt(i: int): bytes {
    if i < 0 then [DASH] + Dec(-i) else Dec(i)
  }

  function Number(d: bytes): nat
    requires AllDigits(d)
  {
    if d == [] then 0 else Number(d[..|d| - 1]) * 10 + (d[|d| - 1] - ZERO)
  }

  lemma {:induction false} NumberOfDec(n: nat)
    ensures Number(Dec(n)) == n
  {
    var d := Dec(n);
    if n >= 10 {
      NumberOfDec(n / 10);
      assert d[..|d| - 1] == Dec(n / 10);
    } else {
      assert d[..0] == [];
    }
  }

  /** Digits without a superfluous leading zero. */
  predicate Minimal(d: bytes) {
    d != [] && AllDigits(d) && (|d| > 1 ==> d[0] != ZERO)
  }

  lemma {:induction false} DecMinimal(n: nat)
    ensures Minimal(Dec(n))
    ensures 0 < n ==> Dec(n)[0] != ZERO
  {
    if n >= 10 {
      DecMinimal(n / 10);
    }
  }

  lemma {:induction false} DecOfMinimal(d: bytes)
    requires Minimal(d)
    ensures Dec(Number(d)) == d
    ensures d[0] != ZERO ==> 0 < Number(d)
  {
    var init, last := d[..|d| - 1], d[|d| - 1];
    assert d == init + [last];
    if init == [] {
      assert Number(d) == last - ZERO;
    } else {
      DecOfMinimal(init);
      Tens(Number(init), last - ZERO);
    }
  }

  lemma Tens(q: nat, r: nat)
    requires r < 10
    ensures (q * 10 + r) / 10 == q && (q * 10 + r) % 10 == r
  {
  }

  /** How many digits s starts with. */
  function DigitRun(s: bytes): (n: nat)
    ensures n <= |s| && AllDigits(s[..n])
    ensures n < |s| ==> !IsDigit(s[n])
  {
    if s == [] || !IsDigit(s[0]) then 0
    else
      var n := DigitRun(s[1..]);
      assert s[..n + 1] == [s[0]] + s[1..][..n];
      n + 1
  }

  /** std::from_chars for a 64-bit integer: the number s starts with and its length, unless none or too large. */
  function FromChars(s: bytes): Option<(int, nat)> {
    var sign := if s != [] && s[0] == DASH then 1 else 0;
    var n := DigitRun(s[sign..]);
    if n == 0 then None
    else
      var v: int := Number(s[sign..][..n]);
      var i := if sign == 1 then -v else v;
      if MIN_INT <= i <= MAX_INT then Some((i, sign + n)) else None
  }

  lemma {:induction false} DigitRunAll(s: bytes)
    requires AllDigits(s)
    ensures DigitRun(s) == |s|
  {
  }

  lemma FromCharsDec(i: int)
    requires MIN_INT <= i <= MAX_INT
    ensures FromChars(DecInt(i)) == Some((i, |DecInt(i)|))
  {
    var d := if i < 0 then Dec(-i) else Dec(i);
    var s := DecInt(i);
    NumberOfDec(if i < 0 then -i else i);
    DigitRunAll(d);
    assert d[..|d|] == d;
    if i < 0 {
      assert s[1..] == d;
    } else {
      assert s[0] != DASH by {
        assert IsDigit(d[0]);
      }
      assert s[0..] == d;
    }
  }

  /** The position of the first c in s; |s| if there is none. */
  function Find(s: bytes, c: byte): (n: nat)
    ensures n <= |s| && (n < |s| ==> s[n] == c)
    ensures forall k :: 0 <= k < n ==> s[k] != c
  {
    if s == [] || s[0] == c then 0 else 1 + Find(s[1..], c)
  }

  lemma {:induction false} FindAfter(s: bytes, c: byte, rest: bytes)
    requires forall k :: 0 <= k < |s| ==> s[k] != c
    ensures Find(s + [c] + rest, c) == |s|
  {
    if s == [] {
      assert (s + [c] + rest)[0] == c;
    } else {
      assert (s + [c] + rest)[1..] == s[1..] + [c] + rest;
      FindAfter(s[1..], c, rest);
    }
  }

  // ---- Encoding ----

  function EncodeString(s: bytes): (r: bytes)
    ensures r != [] && IsDigit(r[0])
  {
    Dec(|s|) + [COLON] + s
  }

  function Encode(v: Value): (r: bytes)
    ensures r != [] && (IsDigit(r[0]) || r[0] in {I, L, D})
    decreases v, 1
  {
    match v
    case Int(i) => [I] + DecInt(i) + [E]
    case Str(s) => EncodeString(s)
    case List(items) => [L] + EncodeItems(items) + [E]
    case Dict(es) => [D] + EncodeEntries(es) + [E]
  }

  function EncodeItems(items: seq<Value>): bytes
    decreases items, 0
  {
    if items == [] then [] else Encode(items[0]) + EncodeItems(items[1..])
  }

  function EncodeEntries(es: seq<Entry>): bytes
    decreases es, 0
  {
    if es == [] then [] else EncodeString(es[0].key) + Encode(es[0].value) + EncodeEntries(es[1..])
  }

  // ---- Decoding ----

  datatype Error =
    | MissingColon | InvalidLength | NegativeLength | LengthExceedsBuffer
    | MissingI | IntegerMissingE | BadInteger | MissingL | ListMissingE | MissingD | DictMissingE
    | UnexpectedEnd | UnknownType | TrailingData

  datatype Result<+T> = Ok(value: T, rest: bytes) | Err(error: Error)

  /** decode_string: the length is read by from_chars and need not fill the space before the colon. */
  function DecodeString(data: bytes): (r: Result<bytes>)
    ensures r.Ok? ==> |r.rest| < |data|
  {
    var colon := Find(data, COLON);
    if colon == |data| then Err(MissingColon)
    else
      var len := FromChars(data[..colon]);
      if len.None? then Err(InvalidLength)
      else if len.value.0 < 0 then Err(NegativeLength)
      else
        var after := data[colon + 1..];
        if |after| < len.value.0 then Err(LengthExceedsBuffer)
        else Ok(after[..len.value.0], after[len.value.0..])
  }

  function DecodeInteger(data: bytes): (r: Result<int>)
    ensures r.Ok? ==> |r.rest| < |data|
  {
    if data == [] || data[0] != I then Err(MissingI)
    else
      var body := data[1..];
      var end := Find(body, E);
      if end == |body| then Err(IntegerMissingE)
      else
        var n := FromChars(body[..end]);
        if n.None? || n.value.1 != end then Err(BadInteger) else Ok(n.value.0, body[end + 1..])
  }

  /** Insertion into an ordered map; an existing key keeps its value. */
  function Emplace(es: seq<Entry>, e: Entry): seq<Entry> {
    if es == [] || Less(e.key, es[0].key) then [e] + es
    else if es[0].key == e.key then es
    else [es[0]] + Emplace(es[1..], e)
  }

  function DecodeValue(data: bytes): (r: Result<Value>)
    ensures r.Ok? ==> |r.rest| < |data|
    decreases |data|, 1
  {
    if data == [] then Err(UnexpectedEnd)
    else if IsDigit(data[0]) then
      var r := DecodeString(data);
      if r.Ok? then Ok(Str(r.value), r.rest) else Err(r.error)
    else if data[0] == I then
      var r := DecodeInteger(data);
      if r.Ok? then Ok(Int(r.value), r.rest) else Err(r.error)
    else if data[0] == L then
      var r := DecodeItems(data[1..], []);
      if r.Ok? then Ok(List(r.value), r.rest) else Err(r.error)
    else if data[0] == D then
      var r := DecodeEntries(data[1..], []);
      if r.Ok? then Ok(Dict(r.value), r.rest) else Err(r.error)
    else Err(UnknownType)
  }

  /** The list loop: values until the end mark, appended to those read so far. */
  function DecodeItems(data: bytes, acc: seq<Value>): (r: Result<seq<Value>>)
    ensures r.Ok? ==> |r.rest| < |data|
    decreases |data|, 2
  {
    if data == [] then Err(ListMissingE)
    else if data[0] == E then Ok(acc, data[1..])
    else
      var r := DecodeValue(data);
      if r.Ok? then DecodeItems(r.rest, acc + [r.value]) else Err(r.error)
  }

  /** The dictionary loop. */
  function DecodeEntries(data: bytes, acc: seq<Entry>): (r: Result<seq<Entry>>)
    ensures r.Ok? ==> |r.rest| < |data|
    decreases |data|, 2
  {
    if data == [] then Err(DictMissingE)
    else if data[0] == E then Ok(acc, data[1..])
    else
      var k := DecodeString(data);
      if k.Err? then Err(k.error)
      else
        var v := DecodeValue(k.rest);
        if v.Ok? then DecodeEntries(v.rest, Emplace(acc, Entry(k.value, v.value))) else Err(v.error)
  }

  /** decode: one value and nothing after it. */
  function Decode(data: bytes): (r: Result<Value>)
    ensures r.Ok? ==> r.rest == []
  {
    var r := DecodeValue(data);
    if r.Ok? && r.rest != [] then Err(TrailingData) else r
  }

  // ---- Decoding what was encoded ----

  lemma DecHasNo(n: nat, c: byte)
    requires !IsDigit(c)
    ensures forall k :: 0 <= k < |Dec(n)| ==> Dec(n)[k] != c
  {
  }

  lemma StringRoundTrip(s: bytes, rest: bytes)
    requires |s| <= MAX_INT
    ensures DecodeString(EncodeString(s) + rest) == Ok(s, rest)
  {
    hide Dec, FromChars;
    var d, data := Dec(|s|), EncodeString(s) + rest;
    assert data == d + [COLON] + (s + rest);
    DecHasNo(|s|, COLON);
    FindAfter(d, COLON, s + rest);
    assert data[..|d|] == d;
    FromCharsDec(|s|);
    assert DecInt(|s|) == d;
    assert data[|d| + 1..] == s + rest;
    assert (s + rest)[..|s|] == s && (s + rest)[|s|..] == rest;
  }

  lemma IntRoundTrip(i: int, rest: bytes)
    requires MIN_INT <= i <= MAX_INT
    ensures DecodeInteger([I] + DecInt(i) + [E] + rest) == Ok(i, rest)
  {
    hide FromChars;
    var d, data := DecInt(i), [I] + DecInt(i) + [E] + rest;
    assert data[1..] == d + [E] + rest;
    assert forall k :: 0 <= k < |d| ==> d[k] != E by {
      DecHasNo(if i < 0 then -i else i, E);
    }
    FindAfter(d, E, rest);
    assert data[1..][..|d|] == d;
    FromCharsDec(i);
    assert data[1..][|d| + 1..] == rest;
  }

  /** Every value decodes from its encoding, and exactly its encoding is consumed. */
  lemma {:induction false} RoundTrip(v: Value, rest: bytes)
    requires Valid(v)
    ensures DecodeValue(Encode(v) + rest) == Ok(v, rest)
    decreases v, 1
  {
    hide DecodeString, DecodeInteger, EncodeString, DecInt, Emplace;
    var data := Encode(v) + rest;
    assert data[0] == Encode(v)[0];
    match v
    case Int(i) =>
      IntRoundTrip(i, rest);
    case Str(s) =>
      StringRoundTrip(s, rest);
    case List(items) =>
      var body := EncodeItems(items) + [E] + rest;
      assert data[1..] == body;
      ItemsRoundTrip(items, [], rest);
      assert [] + items == items;
    case Dict(es) =>
      var body := EncodeEntries(es) + [E] + rest;
      assert data[1..] == body;
      EntriesRoundTrip(es, 0, rest);
      assert es[..0] == [] && es[0..] == es;
  }

  lemma {:induction false} ItemsRoundTrip(items: seq<Value>, acc: seq<Value>, rest: bytes)
    requires forall k :: 0 <= k < |items| ==> Valid(items[k])
    ensures DecodeItems(EncodeItems(items) + [E] + rest, acc) == Ok(acc + items, rest)
    decreases items, 0
  {
    hide Encode, DecodeValue;
    var data := EncodeItems(items) + [E] + rest;
    if items == [] {
      assert data == [E] + rest && data[1..] == rest && acc + items == acc;
    } else {
      var after := EncodeItems(items[1..]) + [E] + rest;
      assert data == Encode(items[0]) + after;
      RoundTrip(items[0], after);
      ItemsRoundTrip(items[1..], acc + [items[0]], rest);
      assert acc + [items[0]] + items[1..] == acc + items;
    }
  }

  lemma {:induction false} EntriesRoundTrip(es: seq<Entry>, n: nat, rest: bytes)
    requires Ascending(es) && n <= |es|
    requires forall k :: 0 <= k < |es| ==> |es[k].key| <= MAX_INT && Valid(es[k].value)
    ensures DecodeEntries(EncodeEntries(es[n..]) + [E] + rest, es[..n]) == Ok(es, rest)
    decreases es, 0, |es| - n
  {
    hide Encode, DecodeValue, DecodeString, EncodeString, Emplace;
    var data := EncodeEntries(es[n..]) + [E] + rest;
    if n == |es| {
      assert es[n..] == [] && es[..n] == es;
      assert data == [E] + rest && data[1..] == rest;
    } else {
      var e := es[n];
      assert es[n..][1..] == es[n + 1..] && es[n..][0] == e;
      var after := EncodeEntries(es[n + 1..]) + [E] + rest;
      var mid := Encode(e.value) + after;
      assert data == EncodeString(e.key) + mid;
      FirstDigit(e.key, mid);
      StringRoundTrip(e.key, mid);
      RoundTrip(e.value, after);
      EmplaceLast(es, n);
      EntriesRoundTrip(es, n + 1, rest);
    }
  }

  lemma FirstDigit(s: bytes, rest: bytes)
    ensures var data := EncodeString(s) + rest;
            data != [] && IsDigit(data[0]) && data[0] != E
  {
  }

  lemma {:induction false} LessFacts(a: bytes, b: bytes)
    ensures !(Less(a, b) && Less(b, a))
    ensures !Less(a, a)
    ensures Less(a, b) || Less(b, a) || a == b
    decreases |a|
  {
    if a != [] && b != [] {
      LessFacts(a[1..], b[1..]);
      assert a == [a[0]] + a[1..] && b == [b[0]] + b[1..];
    } else if a != [] {
      LessFacts(a[1..], []);
    }
  }

  /** A key above all others goes to the end. */
  lemma EmplaceLast(es: seq<Entry>, n: nat)
    requires Ascending(es) && n < |es|
    ensures Emplace(es[..n], es[n]) == es[..n + 1]
  {
    EmplaceFrom(es, 0, n);
    assert es[0..n] == es[..n] && es[0..n + 1] == es[..n + 1];
  }

  lemma {:induction false} EmplaceFrom(es: seq<Entry>, m: nat, n: nat)
    requires Ascending(es) && m <= n < |es|
    ensures Emplace(es[m..n], es[n]) == es[m..n + 1]
    decreases n - m
  {
    hide Less;
    if m < n {
      EmplaceFrom(es, m + 1, n);
      LessFacts(es[m].key, es[n].key);
      assert es[m..n] == [es[m]] + es[m + 1..n];
      assert es[m..n + 1] == [es[m]] + es[m + 1..n + 1];
    }
  }

  /** Different values never encode to the same bytes, nor one to a beginning of the other. */
  lemma PrefixFree(v: Value, w: Value, rest: bytes)
    requires Valid(v) && Valid(w) && Encode(v) == Encode(w) + rest
    ensures v == w && rest == []
  {
    RoundTrip(v, []);
    RoundTrip(w, rest);
    assert Encode(v) + [] == Encode(w) + rest;
  }

  // ---- Canonical form ----

  /** A string with a minimal length prefix: the string and what follows it. */
  function CanonString(data: bytes): (r: Option<(bytes, bytes)>)
    ensures r.Some? ==> |r.value.1| < |data|
  {
    var colon := Find(data, COLON);
    if colon == |data| || !Minimal(data[..colon]) then None
    else
      var n, after := Number(data[..colon]), data[colon + 1..];
      if n > MAX_INT || |after| < n then None else Some((after[..n], after[n..]))
  }

  predicate MinimalInt(d: bytes) {
    if d != [] && d[0] == DASH then Minimal(d[1..]) && d[1] != ZERO else Minimal(d)
  }

  function IntegerOf(d: bytes): int
    requires MinimalInt(d)
  {
    if d[0] == DASH then -(Number(d[1..]) as int) else Number(d)
  }

  /** An integer with minimal digits: what follows it. */
  function CanonInteger(data: bytes): (r: Option<bytes>)
    ensures r.Some? ==> |r.value| < |data|
  {
    if data == [] || data[0] != I then None
    else
      var body := data[1..];
      var end := Find(body, E);
      if end < |body| && MinimalInt(body[..end]) && MIN_INT <= IntegerOf(body[..end]) <= MAX_INT
      then Some(body[end + 1..]) else None
  }

  /**
   * The canonical grammar, read off the bytes alone: minimal decimals within 64 bits, and dictionary keys in
   * strictly ascending order. The result is what follows one canonical value.
   */
  function CanonValue(data: bytes): (r: Option<bytes>)
    ensures r.Some? ==> |r.value| < |data|
    decreases |data|, 1
  {
    if data == [] then None
    else if IsDigit(data[0]) then
      var r := CanonString(data);
      if r.Some? then Some(r.value.1) else None
    else if data[0] == I then CanonInteger(data)
    else if data[0] == L then CanonItems(data[1..])
    else if data[0] == D then CanonEntries(data[1..], None)
    else None
  }

  function CanonItems(data: bytes): (r: Option<bytes>)
    ensures r.Some? ==> |r.value| < |data|
    decreases |data|, 2
  {
    if data == [] then None
    else if data[0] == E then Some(data[1..])
    else
      var r := CanonValue(data);
      if r.Some? then CanonItems(r.value) else None
  }

  function CanonEntries(data: bytes, last: Option<bytes>): (r: Option<bytes>)
    ensures r.Some? ==> |r.value| < |data|
    decreases |data|, 2
  {
    if data == [] then None
    else if data[0] == E then Some(data[1..])
    else
      var k := CanonString(data);
      if k.None? || (last.Some? && !Less(last.value, k.value.0)) then None
      else
        var v := CanonValue(k.value.1);
        if v.Some? then CanonEntries(v.value, Some(k.value.0)) else None
  }

  predicate Canonical(b: bytes) {
    CanonValue(b) == Some([])
  }

  // -- Canonical bytes are the encoding of what they decode to --

  lemma FromCharsMinimal(d: bytes)
    requires MinimalInt(d) && MIN_INT <= IntegerOf(d) <= MAX_INT
    ensures FromChars(d) == Some((IntegerOf(d), |d|)) && DecInt(IntegerOf(d)) == d
  {
    hide Dec;
    var digits := if d[0] == DASH then d[1..] else d;
    DecOfMinimal(digits);
    DigitRunAll(digits);
    assert digits[..|digits|] == digits;
    if d[0] == DASH {
      assert d == [DASH] + digits;
    } else {
      assert d[0..] == digits;
    }
  }

  lemma CanonLength(d: bytes)
    requires Minimal(d) && Number(d) <= MAX_INT
    ensures FromChars(d) == Some((Number(d), |d|)) && Dec(Number(d)) == d && d != [] && d[0] != E
  {
    assert MinimalInt(d) && IntegerOf(d) == Number(d);
    FromCharsMinimal(d);
  }

  lemma CanonStringDecodes(data: bytes)
    requires CanonString(data).Some?
    ensures var (s, rest) := CanonString(data).value;
            && |s| <= MAX_INT && DecodeString(data) == Ok(s, rest) && data == EncodeString(s) + rest
            && (data[0] != E)
  {
    hide Minimal, FromChars, Number, Dec;
    var colon := Find(data, COLON);
    CanonLength(data[..colon]);
    Reassemble(data, colon, Number(data[..colon]));
  }

  lemma Reassemble(data: bytes, colon: nat, n: nat)
    requires 0 < colon < |data| && n <= |data| - colon - 1
    ensures data == data[..colon] + [data[colon]] + data[colon + 1..][..n] + data[colon + 1..][n..]
    ensures data[..colon][0] == data[0] && |data[colon + 1..][..n]| == n
  {
  }

  lemma CanonIntegerDecodes(data: bytes) returns (i: int)
    requires CanonInteger(data).Some?
    ensures MIN_INT <= i <= MAX_INT && DecodeInteger(data) == Ok(i, CanonInteger(data).value)
    ensures data == [I] + DecInt(i) + [E] + CanonInteger(data).value
  {
    hide FromChars, DecInt, Minimal;
    var body := data[1..];
    var end := Find(body, E);
    var d := body[..end];
    FromCharsMinimal(d);
    i := IntegerOf(d);
    assert body == d + [E] + body[end + 1..];
  }

  lemma {:induction false} CanonDecodes(data: bytes) returns (v: Value)
    requires CanonValue(data).Some?
    ensures Valid(v) && DecodeValue(data) == Ok(v, CanonValue(data).value)
    ensures data == Encode(v) + CanonValue(data).value
    decreases |data|, 1
  {
    hide DecodeString, DecodeInteger, EncodeString, DecInt, CanonString, CanonInteger, Less, Emplace;
    hide DecodeItems, DecodeEntries, CanonItems, CanonEntries, EncodeItems, EncodeEntries;
    if IsDigit(data[0]) {
      CanonStringDecodes(data);
      v := Str(CanonString(data).value.0);
    } else if data[0] == I {
      var i := CanonIntegerDecodes(data);
      v := Int(i);
    } else if data[0] == L {
      var items := CanonItemsDecode(data[1..], []);
      v := List(items);
      assert data == [L] + data[1..] && [] + items == items;
    } else {
      var es := CanonEntriesDecode(data[1..], [], None);
      v := Dict(es);
      assert data == [D] + data[1..] && [] + es == es;
    }
  }

  lemma {:induction false} CanonItemsDecode(data: bytes, acc: seq<Value>) returns (items: seq<Value>)
    requires CanonItems(data).Some?
    ensures forall k :: 0 <= k < |items| ==> Valid(items[k])
    ensures DecodeItems(data, acc) == Ok(acc + items, CanonItems(data).value)
    ensures data == EncodeItems(items) + [E] + CanonItems(data).value
    decreases |data|, 2
  {
    hide DecodeValue, CanonValue, Encode, Valid;
    if data[0] == E {
      items := [];
      assert data == [] + [E] + data[1..] && acc + [] == acc;
    } else {
      var v := CanonDecodes(data);
      var more := CanonItemsDecode(CanonValue(data).value, acc + [v]);
      items := [v] + more;
      assert items[1..] == more && acc + [v] + more == acc + items;
    }
  }

  /** Entry keys all lie below `last`, which is the greatest of them. */
  predicate EndsAt(acc: seq<Entry>, last: Option<bytes>) {
    if acc == [] then last.None? else last == Some(acc[|acc| - 1].key)
  }

  lemma {:induction false} CanonEntriesDecode(data: bytes, acc: seq<Entry>, last: Option<bytes>) returns (es: seq<Entry>)
    requires CanonEntries(data, last).Some? && Ascending(acc) && EndsAt(acc, last)
    ensures Ascending(acc + es)
    ensures forall k :: 0 <= k < |es| ==> |es[k].key| <= MAX_INT && Valid(es[k].value)
    ensures DecodeEntries(data, acc) == Ok(acc + es, CanonEntries(data, last).value)
    ensures data == EncodeEntries(es) + [E] + CanonEntries(data, last).value
    decreases |data|, 2
  {
    hide DecodeValue, CanonValue, Encode, Valid, Ascending, DecodeString, EncodeString, CanonString, Less, Emplace;
    if data[0] == E {
      es := [];
      assert data == [] + [E] + data[1..] && acc + [] == acc;
    } else {
      CanonStringDecodes(data);
      var (key, mid) := CanonString(data).value;
      var v := CanonDecodes(mid);
      var e := Entry(key, v);
      AppendAscending(acc, last, e);
      var more := CanonEntriesDecode(CanonValue(mid).value, acc + [e], Some(key));
      es := [e] + more;
      assert es[1..] == more && acc + [e] + more == acc + es;
      EncodeFirst(e, more, CanonEntries(data, last).value);
    }
  }

  lemma EncodeFirst(e: Entry, more: seq<Entry>, rest: bytes)
    ensures EncodeEntries([e] + more) + [E] + rest
         == EncodeString(e.key) + (Encode(e.value) + (EncodeEntries(more) + [E] + rest))
  {
    hide EncodeString, Encode;
    assert ([e] + more)[1..] == more;
  }

  lemma {:induction false} LessTransitive(a: bytes, b: bytes, c: bytes)
    requires Less(a, b) && Less(b, c)
    ensures Less(a, c)
  {
    if a != [] && a[0] == b[0] && b[0] == c[0] {
      LessTransitive(a[1..], b[1..], c[1..]);
    }
  }

  /** A key above the greatest one keeps the order and goes to the end. */
  lemma AppendAscending(acc: seq<Entry>, last: Option<bytes>, e: Entry)
    requires Ascending(acc) && EndsAt(acc, last) && (last.Some? ==> Less(last.value, e.key))
    ensures Ascending(acc + [e]) && Emplace(acc, e) == acc + [e]
  {
    hide Less, Emplace;
    var es := acc + [e];
    forall j | 0 <= j < |acc| ensures Less(acc[j].key, e.key) {
      if j < |acc| - 1 {
        LessTransitive(acc[j].key, acc[|acc| - 1].key, e.key);
      }
    }
    EmplaceLast(es, |acc|);
    assert es[..|acc|] == acc && es[..|acc| + 1] == es;
  }

  // -- Encodings are canonical --

  lemma EncodedString(s: bytes, rest: bytes)
    requires |s| <= MAX_INT
    ensures CanonString(EncodeString(s) + rest) == Some((s, rest))
  {
    hide Dec;
    var d, data := Dec(|s|), EncodeString(s) + rest;
    assert data == d + [COLON] + (s + rest);
    DecHasNo(|s|, COLON);
    FindAfter(d, COLON, s + rest);
    assert data[..|d|] == d && data[|d| + 1..] == s + rest;
    DecMinimal(|s|);
    NumberOfDec(|s|);
    assert (s + rest)[..|s|] == s && (s + rest)[|s|..] == rest;
  }

  lemma EncodedInteger(i: int, rest: bytes)
    requires MIN_INT <= i <= MAX_INT
    ensures CanonInteger([I] + DecInt(i) + [E] + rest) == Some(rest)
  {
    hide Dec;
    var n := if i < 0 then -i else i;
    var d, data := DecInt(i), [I] + DecInt(i) + [E] + rest;
    assert data[1..] == d + [E] + rest;
    DecHasNo(n, E);
    DecHasNo(n, DASH);
    FindAfter(d, E, rest);
    assert data[1..][..|d|] == d && data[1..][|d| + 1..] == rest;
    DecMinimal(n);
    NumberOfDec(n);
    if i < 0 {
      assert d[1..] == Dec(n);
    }
  }

  lemma {:induction false} EncodedIsCanonical(v: Value, rest: bytes)
    requires Valid(v)
    ensures CanonValue(Encode(v) + rest) == Some(rest)
    decreases v, 1
  {
    hide EncodeString, DecInt, CanonString, CanonInteger, Less;
    var data := Encode(v) + rest;
    assert data[0] == Encode(v)[0];
    match v
    case Int(i) =>
      EncodedInteger(i, rest);
    case Str(s) =>
      EncodedString(s, rest);
    case List(items) =>
      assert data[1..] == EncodeItems(items) + [E] + rest;
      EncodedItems(items, rest);
    case Dict(es) =>
      assert data[1..] == EncodeEntries(es) + [E] + rest;
      EncodedEntries(es, 0, rest);
      assert es[0..] == es;
  }

  lemma {:induction false} EncodedItems(items: seq<Value>, rest: bytes)
    requires forall k :: 0 <= k < |items| ==> Valid(items[k])
    ensures CanonItems(EncodeItems(items) + [E] + rest) == Some(rest)
    decreases items, 0
  {
    hide Encode, CanonValue;
    var data := EncodeItems(items) + [E] + rest;
    if items == [] {
      assert data == [E] + rest && data[1..] == rest;
    } else {
      var after := EncodeItems(items[1..]) + [E] + rest;
      assert data == Encode(items[0]) + after;
      EncodedIsCanonical(items[0], after);
      EncodedItems(items[1..], rest);
    }
  }

  lemma {:induction false} EncodedEntries(es: seq<Entry>, n: nat, rest: bytes)
    requires Ascending(es) && n <= |es|
    requires forall k :: 0 <= k < |es| ==> |es[k].key| <= MAX_INT && Valid(es[k].value)
    ensures CanonEntries(EncodeEntries(es[n..]) + [E] + rest, if n == 0 then None else Some(es[n - 1].key)) == Some(rest)
    decreases es, 0, |es| - n
  {
    hide Encode, CanonValue, CanonString, EncodeString, Less;
    var data := EncodeEntries(es[n..]) + [E] + rest;
    if n == |es| {
      assert es[n..] == [];
      assert data == [E] + rest && data[1..] == rest;
    } else {
      var e := es[n];
      assert es[n..][1..] == es[n + 1..] && es[n..][0] == e;
      var after := EncodeEntries(es[n + 1..]) + [E] + rest;
      var mid := Encode(e.value) + after;
      assert data == EncodeString(e.key) + mid;
      FirstDigit(e.key, mid);
      EncodedString(e.key, mid);
      EncodedIsCanonical(e.value, after);
      EncodedEntries(es, n + 1, rest);
    }
  }

  // -- What the decoder accepts at all --

  predicate HasKey(es: seq<Entry>, key: bytes) {
    exists k :: 0 <= k < |es| && es[k].key == key
  }

  lemma {:induction false} EmplaceAscending(es: seq<Entry>, e: Entry)
    requires Ascending(es)
    ensures Ascending(Emplace(es, e))
    ensures forall x :: x in Emplace(es, e) ==> x in es || x == e
    decreases |es|
  {
    hide Less;
    var r := Emplace(es, e);
    if es == [] {
    } else if Less(e.key, es[0].key) {
      forall k | 0 <= k < |es| ensures Less(e.key, es[k].key) {
        if k > 0 {
          LessTransitive(e.key, es[0].key, es[k].key);
        }
      }
    } else if es[0].key != e.key {
      LessFacts(es[0].key, e.key);
      EmplaceAscending(es[1..], e);
      var more := Emplace(es[1..], e);
      forall k | 0 <= k < |more| ensures Less(es[0].key, more[k].key) {
        assert more[k] in more;
        if more[k] != e {
          var j :| 0 <= j < |es[1..]| && es[1..][j] == more[k];
          assert es[j + 1] == more[k];
        }
      }
    }
  }

  /** Insertion adds the entry exactly when its key is new. */
  lemma {:induction false} EmplaceMembers(es: seq<Entry>, e: Entry)
    requires Ascending(es)
    ensures forall x :: x in Emplace(es, e) <==> x in es || (x == e && !HasKey(es, e.key))
    decreases |es|
  {
    hide Less;
    if es == [] {
    } else if Less(e.key, es[0].key) {
      assert !HasKey(es, e.key) by {
        AllAbove(es, e.key);
      }
    } else if es[0].key != e.key {
      EmplaceMembers(es[1..], e);
      assert es == [es[0]] + es[1..];
      assert HasKey(es, e.key) ==> HasKey(es[1..], e.key) by {
        if HasKey(es, e.key) {
          var k :| 0 <= k < |es| && es[k].key == e.key;
          assert es[1..][k - 1].key == e.key;
        }
      }
    } else {
      assert HasKey(es, e.key);
    }
  }

  lemma AllAbove(es: seq<Entry>, key: bytes)
    requires Ascending(es) && es != [] && Less(key, es[0].key)
    ensures !HasKey(es, key)
  {
    hide Less;
    forall k | 0 <= k < |es| ensures es[k].key != key {
      if k > 0 {
        LessTransitive(key, es[0].key, es[k].key);
      }
      LessFacts(key, es[k].key);
    }
  }

  lemma DecodedString(data: bytes)
    requires DecodeString(data).Ok?
    ensures |DecodeString(data).value| <= MAX_INT
  {
  }

  lemma DecodedInteger(data: bytes)
    requires DecodeInteger(data).Ok?
    ensures MIN_INT <= DecodeInteger(data).value <= MAX_INT
  {
  }

  /** Whatever the decoder accepts is a valid value: in particular its dictionaries are sorted. */
  lemma {:induction false} DecodedIsValid(data: bytes)
    requires DecodeValue(data).Ok?
    ensures Valid(DecodeValue(data).value)
    decreases |data|, 1
  {
    hide DecodeString, DecodeInteger, Less, Emplace;
    if IsDigit(data[0]) {
      DecodedString(data);
    } else if data[0] == I {
      DecodedInteger(data);
    } else if data[0] == L {
      DecodedItems(data[1..], []);
    } else {
      DecodedEntries(data[1..], []);
    }
  }

  lemma {:induction false} DecodedItems(data: bytes, acc: seq<Value>)
    requires DecodeItems(data, acc).Ok? && forall k :: 0 <= k < |acc| ==> Valid(acc[k])
    ensures var r := DecodeItems(data, acc).value;
            forall k :: 0 <= k < |r| ==> Valid(r[k])
    decreases |data|, 2
  {
    hide DecodeValue, Valid;
    if data[0] != E {
      DecodedIsValid(data);
      DecodedItems(DecodeValue(data).rest, acc + [DecodeValue(data).value]);
    }
  }

  predicate ValidEntries(es: seq<Entry>) {
    forall k :: 0 <= k < |es| ==> ValidEntry(es[k])
  }

  predicate ValidEntry(e: Entry) {
    |e.key| <= MAX_INT && Valid(e.value)
  }

  lemma {:induction false} DecodedEntries(data: bytes, acc: seq<Entry>)
    requires DecodeEntries(data, acc).Ok? && Ascending(acc) && ValidEntries(acc)
    ensures Ascending(DecodeEntries(data, acc).value) && ValidEntries(DecodeEntries(data, acc).value)
    decreases |data|, 2
  {
    hide DecodeValue, Valid, DecodeString, Emplace, Ascending;
    if data[0] != E {
      var k := DecodeString(data);
      DecodedString(data);
      DecodedIsValid(k.rest);
      var v := DecodeValue(k.rest);
      var e := Entry(k.value, v.value);
      EmplaceAscending(acc, e);
      var more := Emplace(acc, e);
      forall j | 0 <= j < |more| ensures ValidEntry(more[j]) {
        assert more[j] in more;
      }
      DecodedEntries(v.rest, more);
    }
  }

  // -- What a dictionary means --

  /** The pairs up to the end mark, in the order they stand in the bytes. */
  function Pairs(data: bytes): (r: Result<seq<Entry>>)
    ensures r.Ok? ==> |r.rest| < |data|
    decreases |data|
  {
    if data == [] then Err(DictMissingE)
    else if data[0] == E then Ok([], data[1..])
    else
      var k := DecodeString(data);
      if k.Err? then Err(k.error)
      else
        var v := DecodeValue(k.rest);
        if v.Err? then Err(v.error)
        else
          var more := Pairs(v.rest);
          if more.Ok? then Ok([Entry(k.value, v.value)] + more.value, more.rest) else more
  }

  /** Pair i is in the list, and no earlier pair has its key. */
  predicate FirstOfKey(ps: seq<Entry>, i: nat, e: Entry) {
    i < |ps| && ps[i] == e && !HasKey(ps[..i], e.key)
  }

  /** The dictionary that a list of pairs stands for: sorted, and of each key the first value. */
  ghost predicate FirstsOf(es: seq<Entry>, ps: seq<Entry>) {
    Ascending(es) && forall e :: e in es <==> exists i: nat :: FirstOfKey(ps, i, e)
  }

  lemma FirstsHaveKeys(es: seq<Entry>, ps: seq<Entry>, key: bytes)
    requires FirstsOf(es, ps)
    ensures HasKey(es, key) <==> HasKey(ps, key)
  {
    if HasKey(es, key) {
      var k :| 0 <= k < |es| && es[k].key == key;
      assert es[k] in es;
      var i: nat :| FirstOfKey(ps, i, es[k]);
      assert ps[i].key == key;
    }
    if HasKey(ps, key) {
      var i := FirstIndex(ps, key);
      assert FirstOfKey(ps, i, ps[i]);
      assert ps[i] in es;
    }
  }

  lemma {:induction false} FirstIndex(ps: seq<Entry>, key: bytes) returns (i: nat)
    requires HasKey(ps, key)
    ensures i < |ps| && ps[i].key == key && !HasKey(ps[..i], key)
    decreases |ps|
  {
    i :| i < |ps| && ps[i].key == key;
    if HasKey(ps[..i], key) {
      var before := i;
      i := FirstIndex(ps[..before], key);
      assert ps[..before][..i] == ps[..i];
    }
  }

  lemma OneMorePair(es: seq<Entry>, ps: seq<Entry>, p: Entry)
    requires FirstsOf(es, ps)
    ensures FirstsOf(Emplace(es, p), ps + [p])
  {
    hide Emplace, Ascending, HasKey;
    EmplaceAscending(es, p);
    EmplaceMembers(es, p);
    FirstsHaveKeys(es, ps, p.key);
    var more := ps + [p];
    assert more[..|ps|] == ps;
    assert forall i: nat | i < |ps| :: more[..i] == ps[..i];
    forall e ensures e in Emplace(es, p) <==> exists i: nat :: FirstOfKey(more, i, e) {
      if exists i: nat :: FirstOfKey(ps, i, e) {
        var i: nat :| FirstOfKey(ps, i, e);
        assert FirstOfKey(more, i, e);
      }
      if e == p && !HasKey(ps, p.key) {
        assert FirstOfKey(more, |ps|, e);
      }
      if exists i: nat :: FirstOfKey(more, i, e) {
        var i: nat :| FirstOfKey(more, i, e);
        if i < |ps| {
          assert FirstOfKey(ps, i, e);
        }
      }
    }
  }

  /**
   * For all bytes: the dictionary loop succeeds exactly when pairs can be read up to an end mark, fails with the same error
   * otherwise, and gives the sorted dictionary that holds of each key the first value.
   */
  lemma {:induction false} DictMeaning(data: bytes, acc: seq<Entry>, ps: seq<Entry>)
    requires FirstsOf(acc, ps)
    ensures var r, raw := DecodeEntries(data, acc), Pairs(data);
            if raw.Err? then r == Err(raw.error)
            else r.Ok? && r.rest == raw.rest && FirstsOf(r.value, ps + raw.value)
    decreases |data|
  {
    hide DecodeValue, DecodeString, Emplace, FirstsOf;
    if data != [] && data[0] == E {
      assert ps + [] == ps;
    } else if data != [] {
      var k := DecodeString(data);
      if k.Ok? {
        var v := DecodeValue(k.rest);
        if v.Ok? {
          var p := Entry(k.value, v.value);
          OneMorePair(acc, ps, p);
          DictMeaning(v.rest, Emplace(acc, p), ps + [p]);
          var more := Pairs(v.rest);
          if more.Ok? {
            assert ps + [p] + more.value == ps + ([p] + more.value);
          }
        }
      }
    }
  }

  lemma {:induction false} PairsRoundTrip(ps: seq<Entry>, rest: bytes)
    requires ValidEntries(ps)
    ensures Pairs(EncodeEntries(ps) + [E] + rest) == Ok(ps, rest)
  {
    hide Encode, DecodeValue, DecodeString, EncodeString;
    var data := EncodeEntries(ps) + [E] + rest;
    if ps == [] {
      assert data == [E] + rest && data[1..] == rest;
    } else {
      var p := ps[0];
      assert ValidEntry(p);
      var after := EncodeEntries(ps[1..]) + [E] + rest;
      var mid := Encode(p.value) + after;
      assert data == EncodeString(p.key) + mid;
      FirstDigit(p.key, mid);
      StringRoundTrip(p.key, mid);
      RoundTrip(p.value, after);
      PairsRoundTrip(ps[1..], rest);
      assert [p] + ps[1..] == ps;
    }
  }

  /**
   * Pairs written in any order, with repeated keys, decode to the dictionary that is sorted by key and holds exactly the pairs
   * before which no pair has the same key.
   */
  lemma AnyOrder(ps: seq<Entry>, rest: bytes) returns (es: seq<Entry>)
    requires ValidEntries(ps)
    ensures DecodeValue([D] + EncodeEntries(ps) + [E] + rest) == Ok(Dict(es), rest)
    ensures DecodeEntries(EncodeEntries(ps) + [E] + rest, []) == Ok(es, rest)
    ensures Ascending(es)
    ensures forall e :: e in es <==> exists i: nat :: FirstOfKey(ps, i, e)
  {
    hide DecodeEntries, Pairs, EncodeEntries, Ascending;
    var data := EncodeEntries(ps) + [E] + rest;
    Meaning(data);
    PairsRoundTrip(ps, rest);
    es := DecodeEntries(data, []).value;
    assert ([D] + EncodeEntries(ps) + [E] + rest)[1..] == data;
  }

  lemma Meaning(data: bytes)
    ensures var r, raw := DecodeEntries(data, []), Pairs(data);
            if raw.Err? then r == Err(raw.error) else r.Ok? && r.rest == raw.rest && FirstsOf(r.value, raw.value)
  {
    hide DecodeEntries, Pairs, FirstsOf;
    NoPairs();
    DictMeaning(data, [], []);
    assert Pairs(data).Ok? ==> [] + Pairs(data).value == Pairs(data).value;
  }

  lemma NoPairs()
    ensures FirstsOf([], [])
  {
  }

  // -- Which numbers and strings are read --

  /** An optional minus sign and digits, leading zeros allowed, that stand for i within 64 bits. */
  predicate IntegerText(d: bytes, i: int) {
    && MIN_INT <= i <= MAX_INT
    && if d != [] && d[0] == DASH then |d| > 1 && AllDigits(d[1..]) && i == -(Number(d[1..]) as int)
       else d != [] && AllDigits(d) && i == Number(d)
  }

  lemma {:induction false} DigitRunIs(s: bytes, n: nat)
    requires n <= |s| && AllDigits(s[..n]) && (n == |s| || !IsDigit(s[n]))
    ensures DigitRun(s) == n
  {
    if n > 0 {
      assert s[0] == s[..n][0];
      assert s[1..][..n - 1] == s[..n][1..];
      DigitRunIs(s[1..], n - 1);
    }
  }

  lemma FromCharsIff(s: bytes, i: int, n: nat)
    ensures FromChars(s) == Some((i, n)) <==> n <= |s| && IntegerText(s[..n], i) && (n == |s| || !IsDigit(s[n]))
  {
    hide DigitRun, Number;
    var sign := if s != [] && s[0] == DASH then 1 else 0;
    var m := DigitRun(s[sign..]);
    assert s[sign..][..m] == s[sign..sign + m];
    if sign < n <= |s| {
      assert s[..n][sign..] == s[sign..n] == s[sign..][..n - sign];
      assert s[..n][0] == s[0];
      assert sign == 0 ==> s[..n][0..] == s[..n];
      if IntegerText(s[..n], i) && (n == |s| || !IsDigit(s[n])) {
        DigitRunIs(s[sign..], n - sign);
      }
    }
  }

  /** An integer is accepted exactly when its text runs up to the end mark. */
  lemma IntegerIff(data: bytes, i: int, rest: bytes)
    ensures DecodeInteger(data) == Ok(i, rest) <==> exists d :: IntegerText(d, i) && data == [I] + d + [E] + rest
  {
    hide FromChars, IntegerText, DecodeInteger;
    if DecodeInteger(data) == Ok(i, rest) {
      IntegerShape(data, i, rest);
    }
    if exists d :: IntegerText(d, i) && data == [I] + d + [E] + rest {
      var d :| IntegerText(d, i) && data == [I] + d + [E] + rest;
      IntegerReads(d, i, rest);
    }
  }

  lemma IntegerShape(data: bytes, i: int, rest: bytes)
    requires DecodeInteger(data) == Ok(i, rest)
    ensures exists d :: IntegerText(d, i) && data == [I] + d + [E] + rest
  {
    hide FromChars, IntegerText;
    var body := data[1..];
    var end := Find(body, E);
    FromCharsIff(body[..end], i, end);
    assert body[..end][..end] == body[..end];
    assert data == [I] + body[..end] + [E] + rest;
  }

  lemma IntegerReads(d: bytes, i: int, rest: bytes)
    requires IntegerText(d, i)
    ensures DecodeInteger([I] + d + [E] + rest) == Ok(i, rest)
  {
    hide FromChars, IntegerText;
    var data := [I] + d + [E] + rest;
    assert data[1..] == d + [E] + rest;
    TextHasNo(d, i, E);
    FindAfter(d, E, rest);
    assert (d + [E] + rest)[..|d|] == d == d[..|d|] && (d + [E] + rest)[|d| + 1..] == rest;
    FromCharsIff(d, i, |d|);
  }

  lemma TextHasNo(d: bytes, i: int, c: byte)
    requires IntegerText(d, i) && !IsDigit(c) && c != DASH
    ensures forall k :: 0 <= k < |d| ==> d[k] != c
  {
    if d[0] == DASH {
      assert forall k :: 1 <= k < |d| ==> d[k] == d[1..][k - 1];
    }
  }

  /** What may stand between the digits of a length and the colon: anything that does not go on with a digit. */
  predicate Ignored(junk: bytes) {
    (junk == [] || !IsDigit(junk[0])) && forall k :: 0 <= k < |junk| ==> junk[k] != COLON
  }

  /**
   * A string is accepted exactly when the text of its length, which may have leading zeros (or be minus zero), stands first;
   * whatever else is in front of the colon is ignored.
   */
  lemma StringIff(data: bytes, s: bytes, rest: bytes)
    ensures DecodeString(data) == Ok(s, rest) <==>
            exists d, junk :: IntegerText(d, |s|) && Ignored(junk) && data == d + junk + [COLON] + s + rest
  {
    hide FromChars, IntegerText, DecodeString, Ignored;
    if DecodeString(data) == Ok(s, rest) {
      StringShape(data, s, rest);
    }
    if exists d, junk :: IntegerText(d, |s|) && Ignored(junk) && data == d + junk + [COLON] + s + rest {
      var d, junk :| IntegerText(d, |s|) && Ignored(junk) && data == d + junk + [COLON] + s + rest;
      StringReads(d, junk, s, rest);
    }
  }

  lemma StringReads(d: bytes, junk: bytes, s: bytes, rest: bytes)
    requires IntegerText(d, |s|) && Ignored(junk)
    ensures DecodeString(d + junk + [COLON] + s + rest) == Ok(s, rest)
  {
    hide FromChars, IntegerText;
    var head, data := d + junk, d + junk + [COLON] + s + rest;
    assert data == head + [COLON] + (s + rest);
    TextHasNo(d, |s|, COLON);
    FindAfter(head, COLON, s + rest);
    assert data[..|head|] == head && head[..|d|] == d && data[|head| + 1..] == s + rest;
    FromCharsIff(head, |s|, |d|);
    assert (s + rest)[..|s|] == s && (s + rest)[|s|..] == rest;
  }

  lemma StringShape(data: bytes, s: bytes, rest: bytes)
    requires DecodeString(data) == Ok(s, rest)
    ensures exists d, junk :: IntegerText(d, |s|) && Ignored(junk) && data == d + junk + [COLON] + s + rest
  {
    hide FromChars, IntegerText;
    var colon := Find(data, COLON);
    var head := data[..colon];
    var (i, n) := FromChars(head).value;
    FromCharsIff(head, i, n);
    var d, junk := head[..n], head[n..];
    assert i == |s| && Ignored(junk);
    assert data[colon + 1..] == s + rest;
    assert data == d + junk + [COLON] + s + rest;
  }

  /** What begins like no value is refused, and so is anything after a value. */
  lemma Refused(v: Value, rest: bytes, data: bytes)
    requires Valid(v)
    requires data != [] ==> !IsDigit(data[0]) && data[0] !in {I, L, D}
    ensures DecodeValue(data) == Err(if data == [] then UnexpectedEnd else UnknownType)
    ensures Decode(Encode(v) + rest) == if rest == [] then Ok(v, []) else Err(TrailingData)
  {
    hide Encode, Valid;
    RoundTrip(v, rest);
  }

  // -- The theorem the info-hash rests on --

  /**
   * Re-encoding what was decoded gives the original bytes exactly when they are canonical; and canonical bytes
   * always decode.
   */
  lemma ReencodeIffCanonical(b: bytes)
    ensures Canonical(b) ==> Decode(b).Ok?
    ensures Decode(b).Ok? ==> (Encode(Decode(b).value) == b <==> Canonical(b))
  {
    hide DecodeValue, CanonValue, Encode, Valid;
    if Canonical(b) {
      var v := CanonDecodes(b);
      assert Encode(v) + [] == Encode(v);
    }
    if Decode(b).Ok? && Encode(Decode(b).value) == b {
      DecodedIsValid(b);
      EncodedIsCanonical(Decode(b).value, []);
      assert Encode(Decode(b).value) + [] == b;
    }
  }

  // ---- The loops of the decoder ----

  /** decode_value */
  method ParseValue(data: bytes) returns (r: Result<Value>)
    ensures r == DecodeValue(data)
    decreases |data|, 1
  {
    if data == [] {
      return Err(UnexpectedEnd);
    }
    if IsDigit(data[0]) {
      var s := DecodeString(data);
      r := if s.Ok? then Ok(Str(s.value), s.rest) else Err(s.error);
    } else if data[0] == I {
      var i := DecodeInteger(data);
      r := if i.Ok? then Ok(Int(i.value), i.rest) else Err(i.error);
    } else if data[0] == L {
      r := ParseList(data);
    } else if data[0] == D {
      r := ParseDict(data);
    } else {
      r := Err(UnknownType);
    }
  }

  /** decode_list: a loop over a shrinking span. */
  method ParseList(data: bytes) returns (r: Result<Value>)
    requires data != [] && data[0] == L
    ensures r == DecodeValue(data)
    decreases |data|, 0
  {
    hide DecodeString, DecodeInteger, Emplace;
    var span, result := data[1..], [];
    while span != [] && span[0] != E
      invariant |span| < |data|
      invariant DecodeItems(span, result) == DecodeItems(data[1..], [])
      decreases |span|
    {
      var v := ParseValue(span);
      if v.Err? {
        return Err(v.error);
      }
      span, result := v.rest, result + [v.value];
    }
    if span == [] {
      return Err(ListMissingE);
    }
    return Ok(List(result), span[1..]);
  }

  /** decode_dict */
  method ParseDict(data: bytes) returns (r: Result<Value>)
    requires data != [] && data[0] == D
    ensures r == DecodeValue(data)
    ensures Pairs(data[1..]).Err? ==> r == Err(Pairs(data[1..]).error)
    ensures Pairs(data[1..]).Ok? ==> r.Ok? && r.value.Dict? && r.rest == Pairs(data[1..]).rest
                                     && FirstsOf(r.value.entries, Pairs(data[1..]).value)
    decreases |data|, 0
  {
    hide DecodeString, DecodeInteger, Emplace, FirstsOf;
    Meaning(data[1..]);
    var span, result := data[1..], [];
    while span != [] && span[0] != E
      invariant |span| < |data|
      invariant DecodeEntries(span, result) == DecodeEntries(data[1..], [])
      decreases |span|
    {
      var k := DecodeString(span);
      if k.Err? {
        return Err(k.error);
      }
      var v := ParseValue(k.rest);
      if v.Err? {
        return Err(v.error);
      }
      span, result := v.rest, Emplace(result, Entry(k.value, v.value));
    }
    if span == [] {
      return Err(DictMissingE);
    }
    return Ok(Dict(result), span[1..]);
  }
}
