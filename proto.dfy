/** The command model and the RESP3 map-reply encoder (proto.go).

    Go strings are byte strings; here a Go string is a Dafny `string` whose
    characters all have codes below 256, one character per byte. */
module Proto {

  /** One octet. */
  newtype byte = x: int | 0 <= x < 256

  type Bytes = seq<byte>

  /** True when every character of `s` stands for one byte. */
  predicate IsByteString(s: string) {
    forall i :: 0 <= i < |s| ==> s[i] as int < 256
  }

  /** Go's `[]byte(s)`: the bytes of a byte string. */
  function StringToBytes(s: string): (b: Bytes)
    requires IsByteString(s)
  {
    seq(|s|, i requires 0 <= i < |s| => s[i] as int as byte)
  }

  /** Go's `string(b)`: the byte string holding the bytes `b`. */
  function BytesToString(b: Bytes): (s: string)
  {
    seq(|b|, i requires 0 <= i < |b| => b[i] as int as char)
  }

  /** Converting bytes to a string and back loses nothing. */
  lemma BytesStringRoundTrip(b: Bytes)
    ensures IsByteString(BytesToString(b))
    ensures StringToBytes(BytesToString(b)) == b
  {
  }

  /** Distinct byte sequences give distinct strings, so `string(val)` keeps the value. */
  lemma BytesToStringInjective(a: Bytes, b: Bytes)
    requires BytesToString(a) == BytesToString(b)
    ensures a == b
  {
    BytesStringRoundTrip(a);
    BytesStringRoundTrip(b);
  }

  // ---------------------------------------------------------------------
  // Commands

  const CommandSet: string := "set"
  const CommandGet: string := "get"
  const CommandHello: string := "hello"
  const CommandClient: string := "client"

  /** The closed set of commands; `None` is the nil `Command` interface value
      that an unrecognised request leaves behind. */
  datatype Command =
    | None
    | Set(key: Bytes, val: Bytes)
    | Get(key: Bytes)
    | Client(value: string)
    | Hello(value: string)

  /** The four command names are pairwise distinct, so a request head selects
      at most one command. */
  lemma CommandNamesDistinct()
    ensures |{CommandSet, CommandGet, CommandHello, CommandClient}| == 4
  {
    assert CommandSet[0] == 's' && CommandGet[0] == 'g';
    assert CommandHello[0] == 'h' && CommandClient[0] == 'c';
  }

  // ---------------------------------------------------------------------
  // Decimal rendering, as `fmt.Sprintf("%d", n)` does for a non-negative n

  function DigitChar(d: nat): (c: char)
    requires d < 10
    ensures '0' <= c <= '9'
  {
    ('0' as int + d) as char
  }

  predicate IsDigits(s: string) {
    forall i :: 0 <= i < |s| ==> '0' <= s[i] <= '9'
  }

  /** The decimal rendering of `n`: a non-empty string of digits with no
      leading zero other than the rendering of zero itself. */
  function Decimal(n: nat): (s: string)
    ensures |s| > 0 && IsDigits(s)
    ensures s[0] == '0' ==> n == 0
    ensures n == 0 ==> s == "0"
    decreases n
  {
    if n < 10 then [DigitChar(n)] else Decimal(n / 10) + [DigitChar(n % 10)]
  }

  /** The number a string of decimal digits denotes (the inverse of `Decimal`). */
  function DecimalValue(s: string): nat
    requires IsDigits(s)
    decreases |s|
  {
    if s == [] then 0
    else DecimalValue(s[..|s| - 1]) * 10 + (s[|s| - 1] as int - '0' as int)
  }

  /** The rendered count reads back as the count. */
  lemma {:induction false} DecimalRoundTrip(n: nat)
    ensures DecimalValue(Decimal(n)) == n
    decreases n
  {
    var s := Decimal(n);
    if n >= 10 {
      DecimalRoundTrip(n / 10);
      assert s[..|s| - 1] == Decimal(n / 10);
    }
  }

  // ---------------------------------------------------------------------
  // respWriteMap

  /** The RESP3 map header: '%', the decimal entry count without leading
      zeros, CR LF. */
  function MapHeaderText(n: nat): (h: string)
    ensures IsByteString(h)
    ensures |h| >= 4 && h[0] == '%' && h[|h| - 2..] == "\r\n"
    ensures IsDigits(h[1..|h| - 2]) && DecimalValue(h[1..|h| - 2]) == n
    ensures h[1] == '0' ==> |h| == 4
    ensures h[1..|h| - 2] == Decimal(n)
  {
    var h := "%" + Decimal(n) + "\r\n";
    assert h[1..|h| - 2] == Decimal(n);
    DecimalRoundTrip(n);
    h
  }

  /** True when `order` lists every key of `keys` exactly once and nothing else. */
  predicate IsEnumeration(order: seq<string>, keys: set<string>) {
    && (forall i :: 0 <= i < |order| ==> order[i] in keys)
    && (forall k :: k in keys ==> k in order)
    && (forall i, j :: 0 <= i < j < |order| ==> order[i] != order[j])
  }

  /** An enumeration of a set is as long as the set is large. */
  lemma {:induction false} EnumerationLength(order: seq<string>, keys: set<string>)
    requires IsEnumeration(order, keys)
    ensures |order| == |keys|
    decreases |order|
  {
    if order != [] {
      var k := order[|order| - 1];
      var front := order[..|order| - 1];
      assert k !in front;
      forall x | x in keys - {k} ensures x in front {
        var i :| 0 <= i < |order| && order[i] == x;
      }
      EnumerationLength(front, keys - {k});
    }
  }

  /** The string elements written after the header when the map's entries are
      visited in `order`: each key immediately followed by its value. */
  function Elements(m: map<string, string>, order: seq<string>): (es: seq<string>)
    requires forall i :: 0 <= i < |order| ==> order[i] in m
    ensures |es| == 2 * |order|
    ensures forall i :: 0 <= i < |order| ==> es[2 * i] == order[i] && es[2 * i + 1] == m[order[i]]
    decreases |order|
  {
    if order == [] then []
    else
      var rest := Elements(m, order[1..]);
      assert forall i :: 1 <= i < |order| ==> rest[2 * (i - 1)] == order[i];
      [order[0], m[order[0]]] + rest
  }

  lemma {:induction false} ElementsAppend(m: map<string, string>, order: seq<string>, k: string)
    requires forall i :: 0 <= i < |order| ==> order[i] in m
    requires k in m
    ensures Elements(m, order + [k]) == Elements(m, order) + [k, m[k]]
    decreases |order|
  {
    if order != [] {
      assert (order + [k])[1..] == order[1..] + [k];
      ElementsAppend(m, order[1..], k);
    }
  }

  /** The bytes of the elements `es`, each written by the codec's string writer `enc`. */
  function Encoded(enc: string -> Bytes, es: seq<string>): Bytes
    decreases |es|
  {
    if es == [] then [] else enc(es[0]) + Encoded(enc, es[1..])
  }

  lemma {:induction false} EncodedAppend(enc: string -> Bytes, a: seq<string>, b: seq<string>)
    ensures Encoded(enc, a + b) == Encoded(enc, a) + Encoded(enc, b)
    decreases |a|
  {
    if a == [] {
      assert a + b == b;
    } else {
      assert (a + b)[1..] == a[1..] + b;
      EncodedAppend(enc, a[1..], b);
    }
  }

  lemma EncodedPair(enc: string -> Bytes, x: string, y: string)
    ensures Encoded(enc, [x, y]) == enc(x) + enc(y)
  {
    assert [y][1..] == [];
    assert Encoded(enc, [y]) == enc(y) + [];
    assert [x, y][1..] == [y];
  }

  /** Visiting one more key of the unvisited ones extends the enumeration of
      the visited ones. */
  lemma EnumerationStep(order: seq<string>, keys: set<string>, rest: set<string>, k: string)
    requires rest <= keys && k in rest
    requires IsEnumeration(order, keys - rest)
    ensures IsEnumeration(order + [k], keys - (rest - {k}))
  {
    var next := order + [k];
    forall x | x in keys - (rest - {k}) ensures x in next {
      if x != k {
        assert x in order;
        var i :| 0 <= i < |order| && order[i] == x;
        assert next[i] == x;
      } else {
        assert next[|order|] == k;
      }
    }
  }

  /** Visiting one more entry appends its key's and its value's encodings. */
  lemma EncodedElementsAppend(m: map<string, string>, order: seq<string>, k: string, enc: string -> Bytes)
    requires forall i :: 0 <= i < |order| ==> order[i] in m
    requires k in m
    ensures Encoded(enc, Elements(m, order + [k])) == Encoded(enc, Elements(m, order)) + enc(k) + enc(m[k])
  {
    ElementsAppend(m, order, k);
    EncodedAppend(enc, Elements(m, order), [k, m[k]]);
    EncodedPair(enc, k, m[k]);
  }

  /** respWriteMap: the header for |m| entries, then every entry's key and value
      encodings, entries in an unspecified order (Go map iteration). The ghost
      `order` records the order in which the entries were visited. */
  method RespWriteMap(m: map<string, string>, enc: string -> Bytes) returns (out: Bytes, ghost order: seq<string>)
    ensures |out| >= |MapHeaderText(|m|)| && out[..|MapHeaderText(|m|)|] == StringToBytes(MapHeaderText(|m|))
    ensures IsEnumeration(order, m.Keys)
    ensures out == StringToBytes(MapHeaderText(|m|)) + Encoded(enc, Elements(m, order))
  {
    var header := StringToBytes(MapHeaderText(|m|));
    out := header;
    order := [];
    var rest := m.Keys;
    while rest != {}
      invariant rest <= m.Keys
      invariant IsEnumeration(order, m.Keys - rest)
      invariant out == header + Encoded(enc, Elements(m, order))
      decreases rest
    {
      var k :| k in rest;
      EnumerationStep(order, m.Keys, rest, k);
      EncodedElementsAppend(m, order, k, enc);
      out := out + enc(k) + enc(m[k]);
      order := order + [k];
      rest := rest - {k};
    }
  }

  /** Whatever the visiting order, the output holds exactly 2·|m| elements and
      every entry of `m` appears as its key followed by its value exactly once. */
  lemma MapReplyEntries(m: map<string, string>, order: seq<string>)
    requires IsEnumeration(order, m.Keys)
    ensures |Elements(m, order)| == 2 * |m|
    ensures forall k :: k in m ==>
      exists i :: 0 <= i < |m| && Elements(m, order)[2 * i] == k && Elements(m, order)[2 * i + 1] == m[k]
    ensures forall i, j :: 0 <= i < j < |m| ==> Elements(m, order)[2 * i] != Elements(m, order)[2 * j]
  {
    EnumerationLength(order, m.Keys);
    var es := Elements(m, order);
    forall k | k in m
      ensures exists i :: 0 <= i < |m| && es[2 * i] == k && es[2 * i + 1] == m[k]
    {
      var i :| 0 <= i < |order| && order[i] == k;
      assert es[2 * i] == k && es[2 * i + 1] == m[k];
    }
  }

  /** The capability map the server advertises in reply to HELLO. */
  const HelloMap: map<string, string> := map["server" := "redis"]

  /** The bytes of the HELLO reply. */
  function HelloReply(enc: string -> Bytes): Bytes {
    StringToBytes("%1\r\n") + enc("server") + enc("redis")
  }

  /** For the one-entry HELLO map every visiting order gives the same bytes:
      the header "%1\r\n", then the encodings of "server" and "redis". */
  lemma HelloMapEncoding(enc: string -> Bytes, out: Bytes, order: seq<string>)
    requires IsEnumeration(order, HelloMap.Keys)
    requires out == StringToBytes(MapHeaderText(|HelloMap|)) + Encoded(enc, Elements(HelloMap, order))
    ensures out == HelloReply(enc)
  {
    assert HelloMap.Keys == {"server"};
    EnumerationLength(order, HelloMap.Keys);
    assert order == ["server"];
    assert Decimal(1) == "1";
    assert MapHeaderText(1) == "%1\r\n";
    var es := Elements(HelloMap, order);
    assert es == ["server", "redis"];
    EncodedPair(enc, "server", "redis");
  }
}
