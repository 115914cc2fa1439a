/**
 The X-Aegis-Signature header `t=<seconds>,n=<nonce>,s=<signature>` and the string that is signed: what a signer writes
 parses back, and different requests never sign the same string.
 */
module SignatureHeader {
  import opened Text
  import opened Wrappers

  // -- The header ----------------------------------------------------------------------------------

  datatype Header = Header(t: int, n: string, s: string)

  /** One `key=value` item; a later one overrides an earlier one. */
  function AddItem(parts: map<string, string>, item: string): map<string, string> {
    match Partition(item, '=')
    case None => parts
    case Some((key, value)) => parts[Strip(key) := Strip(value)]
  }

  function Parts(items: seq<string>): map<string, string> {
    if items == [] then map[] else AddItem(Parts(items[..|items| - 1]), items[|items| - 1])
  }

  function GetOr(parts: map<string, string>, key: string): string {
    if key in parts then parts[key] else ""
  }

  /** The nonce pattern: 8 to 64 hexadecimal digits. */
  predicate IsNonce(n: string) {
    8 <= |n| <= 64 && forall i | 0 <= i < |n| :: IsHex(n[i])
  }

  function FromParts(parts: map<string, string>): Option<Header> {
    match ParseInt(GetOr(parts, "t"))
    case None => None
    case Some(t) =>
      if IsNonce(GetOr(parts, "n")) && GetOr(parts, "s") != "" then Some(Header(t, GetOr(parts, "n"), GetOr(parts, "s")))
      else None
  }

  function Parse(header: string): Option<Header> {
    FromParts(Parts(Split(header, ',')))
  }

  /** The loop over the items. */
  method ParseHeader(header: string) returns (r: Option<Header>)
    ensures r == Parse(header)
  {
    var parts: map<string, string> := map[];
    var items := Split(header, ',');
    var i := 0;
    while i < |items|
      invariant 0 <= i <= |items|
      invariant parts == Parts(items[..i])
    {
      assert items[..i + 1][..i] == items[..i];
      match Partition(items[i], '=') {
        case None =>
        case Some((key, value)) => parts := parts[Strip(key) := Strip(value)];
      }
      i := i + 1;
    }
    assert items[..i] == items;
    return FromParts(parts);
  }

  /** What `sign_request` writes. */
  function Write(t: nat, n: string, s: string): string {
    "t=" + Decimal(t) + "," + "n=" + n + "," + "s=" + s
  }

  // -- Round trip ----------------------------------------------------------------------------------

  /** Text that survives in an item: no separator and nothing to strip. */
  ghost predicate Plain(s: string) {
    forall i | 0 <= i < |s| :: s[i] != ',' && s[i] != '=' && !IsSpace(s[i])
  }

  lemma PlainIsStripped(s: string)
    requires Plain(s)
    ensures Strip(s) == s
  {
  }

  lemma PartitionItem(key: char, value: string)
    requires key != '='
    ensures Partition([key] + "=" + value, '=') == Some(([key], value))
  {
    var item := [key] + "=" + value;
    assert item[1..] == "=" + value && item[1..][1..] == value;
    assert Partition(item[1..], '=') == Some(([], value));
    assert [item[0]] + [] == [key];
  }

  lemma ItemAdded(parts: map<string, string>, key: char, value: string)
    requires key != '=' && !IsSpace(key) && key != ',' && Plain(value)
    ensures AddItem(parts, [key] + "=" + value) == parts[[key] := value]
  {
    PartitionItem(key, value);
    PlainIsStripped([key]);
    PlainIsStripped(value);
  }

  lemma DecimalIsPlain(n: nat)
    ensures Plain(Decimal(n))
  {
    hide Decimal;
    DecimalIsDigits(n);
  }

  lemma {:induction false} ParseDecimal(n: nat)
    ensures ParseInt(Decimal(n)) == Some(n)
  {
    DecimalIsPlain(n);
    DecimalIsDigits(n);
    PlainIsStripped(Decimal(n));
    DigitsOfDecimal(n);
  }

  lemma ThreeParts(a: string, b: string, c: string)
    ensures Parts([a, b, c]) == AddItem(AddItem(AddItem(map[], a), b), c)
  {
    assert [a, b, c][..2] == [a, b] && [a, b][..1] == [a] && [a][..0] == [];
    assert Parts([a]) == AddItem(map[], a);
    assert Parts([a, b]) == AddItem(Parts([a]), b);
  }

  lemma HexIsNonce(n: string)
    requires 8 <= |n| <= 64 && forall i | 0 <= i < |n| :: n[i] in "0123456789abcdefABCDEF"
    ensures IsNonce(n) && Plain(n)
  {
    forall i | 0 <= i < |n| ensures IsHex(n[i]) {
      Classes(n[i]);
    }
  }

  /** A header written with a nonce and a signature in their alphabets parses back to the same values. */
  lemma WrittenHeaderParses(t: nat, n: string, s: string)
    requires 8 <= |n| <= 64 && (forall i | 0 <= i < |n| :: n[i] in "0123456789abcdefABCDEF") && s != "" && Plain(s)
    ensures Parse(Write(t, n, s)) == Some(Header(t, n, s))
  {
    HexIsNonce(n);
    hide IsNonce, IsHex;
    var a, b, c := "t=" + Decimal(t), "n=" + n, "s=" + s;
    DecimalIsPlain(t);
    assert Plain(n);
    assert Write(t, n, s) == a + "," + (b + "," + c);
    SplitFirst(a, ',', b + "," + c);
    SplitFirst(b, ',', c);
    SplitNothing(c, ',');
    assert Split(Write(t, n, s), ',') == [a, b, c];
    ThreeParts(a, b, c);
    assert a == ['t'] + "=" + Decimal(t) && b == ['n'] + "=" + n && c == ['s'] + "=" + s;
    hide Split, Partition, Strip, Decimal, ParseInt, AddItem;
    ItemAdded(map[], 't', Decimal(t));
    ItemAdded(map["t" := Decimal(t)], 'n', n);
    ItemAdded(map["t" := Decimal(t), "n" := n], 's', s);
    ParseDecimal(t);
  }

  /** Whatever is parsed has a nonce of 8 to 64 hexadecimal digits and a signature. */
  lemma ParsedIsComplete(header: string)
    requires Parse(header).Some?
    ensures
      var h := Parse(header).value;
      8 <= |h.n| <= 64 && h.s != "" && forall i | 0 <= i < |h.n| :: h.n[i] in "0123456789abcdefABCDEF"
  {
    hide Split, Parts, ParseInt, IsHex;
    var n := Parse(header).value.n;
    forall i | 0 <= i < |n| ensures n[i] in "0123456789abcdefABCDEF" {
      Classes(n[i]);
    }
  }

  // -- The signed string ---------------------------------------------------------------------------

  /** The parts that are signed; the body only through its hash. */
  datatype Signed = Signed(method_: string, path: string, t: string, n: string, bodyHash: string)

  /** `"\n".join(...)`. */
  function Canonical(x: Signed): string {
    x.method_ + "\n" + (x.path + "\n" + (x.t + "\n" + (x.n + "\n" + x.bodyHash)))
  }

  ghost predicate OneLine(s: string) {
    forall i | 0 <= i < |s| :: s[i] != '\n'
  }

  lemma {:induction false} LineIsDetermined(a: string, b: string, x: string, y: string)
    requires OneLine(a) && OneLine(b) && a + "\n" + x == b + "\n" + y
    ensures a == b && x == y
  {
    var u, v := a + "\n" + x, b + "\n" + y;
    assert u[|a|] == '\n' && v[|b|] == '\n';
    assert forall i | 0 <= i < |a| :: u[i] == a[i];
    assert forall i | 0 <= i < |b| :: v[i] == b[i];
    assert a == u[..|a|] && b == v[..|b|];
    assert x == u[|a| + 1..] && y == v[|b| + 1..];
  }

  /** One signature covers one request: requests without line breaks in their parts never sign the same string. */
  lemma CanonicalIsInjective(x: Signed, y: Signed)
    requires OneLine(x.method_) && OneLine(x.path) && OneLine(x.t) && OneLine(x.n)
    requires OneLine(y.method_) && OneLine(y.path) && OneLine(y.t) && OneLine(y.n)
    requires Canonical(x) == Canonical(y)
    ensures x == y
  {
    var x3, y3 := x.n + "\n" + x.bodyHash, y.n + "\n" + y.bodyHash;
    var x2, y2 := x.t + "\n" + x3, y.t + "\n" + y3;
    var x1, y1 := x.path + "\n" + x2, y.path + "\n" + y2;
    hide OneLine;
    LineIsDetermined(x.method_, y.method_, x1, y1);
    LineIsDetermined(x.path, y.path, x2, y2);
    LineIsDetermined(x.t, y.t, x3, y3);
    LineIsDetermined(x.n, y.n, x.bodyHash, y.bodyHash);
  }

  /** The signed string line by line: method, path, timestamp, nonce, hash of the body. */
  lemma CanonicalLines(x: Signed)
    requires OneLine(x.method_) && OneLine(x.path) && OneLine(x.t) && OneLine(x.n) && OneLine(x.bodyHash)
    ensures Split(Canonical(x), '\n') == [x.method_, x.path, x.t, x.n, x.bodyHash]
  {
    hide Split;
    var x3 := x.n + "\n" + x.bodyHash;
    var x2 := x.t + "\n" + x3;
    var x1 := x.path + "\n" + x2;
    SplitFirst(x.method_, '\n', x1);
    SplitFirst(x.path, '\n', x2);
    SplitFirst(x.t, '\n', x3);
    SplitFirst(x.n, '\n', x.bodyHash);
    SplitNothing(x.bodyHash, '\n');
  }

  /** Later items override earlier ones of the same name. */
  lemma LastItemCounts(items: seq<string>, key: char, value: string)
    requires key != '=' && !IsSpace(key) && key != ',' && Plain(value)
    ensures Parts(items + [[key] + "=" + value]) == Parts(items)[[key] := value]
  {
    ItemAdded(Parts(items), key, value);
    var all := items + [[key] + "=" + value];
    assert all[..|all| - 1] == items;
  }
}
