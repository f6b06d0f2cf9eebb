/**
 * The application/x-www-form-urlencoded serializer of the WHATWG URL Standard
 * (section 5.2), which `URLSearchParams.toString()` runs, together with a
 * strict inverse used to state that the serialisation loses nothing.
 *
 * Each name and value is encoded as UTF-8; every byte in the
 * application/x-www-form-urlencoded percent-encode set becomes `%XY` with
 * upper-case hexadecimal digits, except that the space byte becomes `+`;
 * each tuple is written `name=value` and the tuples are separated by `&`.
 */
module FormUrlEncoded {
  import opened Options
  import Utf8

  type Pair = (string, string)

  // The percent-encode sets of section 1.3 of the URL Standard, each built
  // from the one before it, over byte values.

  predicate InC0ControlSet(b: Utf8.byte) {
    b <= 0x1F || b > 0x7E
  }

  predicate InQuerySet(b: Utf8.byte) {
    InC0ControlSet(b) || b == 0x20 || b == 0x22 || b == 0x23 || b == 0x3C || b == 0x3E
  }

  predicate InPathSet(b: Utf8.byte) {
    InQuerySet(b) || b == 0x3F || b == 0x5E || b == 0x60 || b == 0x7B || b == 0x7D
  }

  predicate InUserinfoSet(b: Utf8.byte) {
    || InPathSet(b)
    || b == 0x2F || b == 0x3A || b == 0x3B || b == 0x3D || b == 0x40
    || (0x5B <= b <= 0x5E) || b == 0x7C
  }

  predicate InComponentSet(b: Utf8.byte) {
    InUserinfoSet(b) || (0x24 <= b <= 0x26) || b == 0x2B || b == 0x2C
  }

  predicate InFormSet(b: Utf8.byte) {
    InComponentSet(b) || b == 0x21 || (0x27 <= b <= 0x29) || b == 0x7E
  }

  predicate IsAsciiAlphanumeric(n: int) {
    (0x30 <= n <= 0x39) || (0x41 <= n <= 0x5A) || (0x61 <= n <= 0x7A)
  }

  /** The bytes the serializer copies through unchanged: ASCII letters, digits, `*`, `-`, `.` and `_`. */
  predicate IsUnreserved(n: int) {
    IsAsciiAlphanumeric(n) || n == 0x2A || n == 0x2D || n == 0x2E || n == 0x5F
  }

  /** The characters the serializer can write for a name or a value. */
  predicate IsOutputChar(c: char) {
    IsUnreserved(c as int) || c == '+' || c == '%'
  }

  /** The nested definitions of the standard leave exactly the unreserved bytes unencoded. */
  lemma FormSetIsComplementOfUnreserved(b: Utf8.byte)
    ensures InFormSet(b) <==> !IsUnreserved(b)
  {
  }

  function HexDigit(k: int): (c: char)
    requires 0 <= k < 16
    ensures IsAsciiAlphanumeric(c as int)
  {
    "0123456789ABCDEF"[k]
  }

  predicate IsHexDigit(c: char) {
    ('0' <= c <= '9') || ('A' <= c <= 'F') || ('a' <= c <= 'f')
  }

  function HexValue(c: char): (k: int)
    requires IsHexDigit(c)
    ensures 0 <= k < 16
  {
    if '0' <= c <= '9' then c as int - '0' as int
    else if 'A' <= c <= 'F' then c as int - 'A' as int + 10
    else c as int - 'a' as int + 10
  }

  lemma HexValueOfDigit(k: int)
    requires 0 <= k < 16
    ensures IsHexDigit(HexDigit(k)) && HexValue(HexDigit(k)) == k
  {
  }

  /** One byte of the UTF-8 encoding, as the serializer writes it (spaceAsPlus is true). */
  function EncodeByte(b: Utf8.byte): (s: string)
    ensures 1 <= |s| <= 3
  {
    if b == 0x20 then "+"
    else if InFormSet(b) then ['%', HexDigit(b / 16), HexDigit(b % 16)]
    else [b as char]
  }

  function EncodeBytes(bs: seq<Utf8.byte>): string {
    if bs == [] then "" else EncodeByte(bs[0]) + EncodeBytes(bs[1..])
  }

  lemma EncodeByteOutput(b: Utf8.byte)
    ensures forall i :: 0 <= i < |EncodeByte(b)| ==> IsOutputChar(EncodeByte(b)[i])
  {
  }

  /** The serializer writes only unreserved characters, `+` and `%`. */
  lemma {:induction false} EncodeBytesOutput(bs: seq<Utf8.byte>)
    ensures forall i :: 0 <= i < |EncodeBytes(bs)| ==> IsOutputChar(EncodeBytes(bs)[i])
  {
    if bs != [] {
      EncodeByteOutput(bs[0]);
      EncodeBytesOutput(bs[1..]);
      var e, rest := EncodeByte(bs[0]), EncodeBytes(bs[1..]);
      assert forall i :: |e| <= i < |e| + |rest| ==> (e + rest)[i] == rest[i - |e|];
    }
  }

  /** Percent-encoding after encoding with UTF-8, as applied to each name and each value. */
  function EncodeComponent(s: string): (r: string)
    ensures forall i :: 0 <= i < |r| ==> IsOutputChar(r[i])
    ensures '&' !in r && '=' !in r
  {
    var r := EncodeBytes(Utf8.Encode(s));
    EncodeBytesOutput(Utf8.Encode(s));
    assert !IsOutputChar('&') && !IsOutputChar('=');
    r
  }

  lemma {:induction false} EncodeBytesConcat(a: seq<Utf8.byte>, b: seq<Utf8.byte>)
    ensures EncodeBytes(a + b) == EncodeBytes(a) + EncodeBytes(b)
  {
    if a == [] {
      assert a + b == b;
    } else {
      assert (a + b)[0] == a[0];
      assert (a + b)[1..] == a[1..] + b;
      EncodeBytesConcat(a[1..], b);
    }
  }

  /** Names and values are encoded character by character. */
  lemma EncodeComponentConcat(a: string, b: string)
    ensures EncodeComponent(a + b) == EncodeComponent(a) + EncodeComponent(b)
  {
    Utf8.EncodeConcat(a, b);
    EncodeBytesConcat(Utf8.Encode(a), Utf8.Encode(b));
  }

  /** An ASCII character is one byte in UTF-8, percent-encoded on its own. */
  lemma EncodeAsciiChar(c: char)
    requires c as int < 0x80
    ensures EncodeComponent([c]) == EncodeByte(c as int)
  {
    assert [c][1..] == [];
    assert Utf8.Encode([c]) == [c as int];
    var b: seq<Utf8.byte> := [c as int];
    assert b[1..] == [];
    assert EncodeBytes(b) == EncodeByte(c as int) + EncodeBytes([]);
  }

  predicate IsUnreservedText(s: string) {
    forall i :: 0 <= i < |s| ==> IsUnreserved(s[i] as int)
  }

  /** Text made only of unreserved characters is written unchanged. */
  lemma {:induction false} EncodeUnreservedText(s: string)
    requires IsUnreservedText(s)
    ensures EncodeComponent(s) == s
  {
    if s != [] {
      assert s == [s[0]] + s[1..];
      EncodeComponentConcat([s[0]], s[1..]);
      EncodeUnreservedText(s[1..]);
      assert Utf8.Encode([s[0]]) == [s[0] as int];
    }
  }

  function EncodePair(p: Pair): string {
    EncodeComponent(p.0) + "=" + EncodeComponent(p.1)
  }

  /** The encoded `name=value` text of every tuple, in order. */
  function EncodeAll(tuples: seq<Pair>): (es: seq<string>)
    ensures |es| == |tuples|
    ensures forall i :: 0 <= i < |es| ==> es[i] == EncodePair(tuples[i])
  {
    seq(|tuples|, i requires 0 <= i < |tuples| => EncodePair(tuples[i]))
  }

  /**
   * The serializer's loop over the encoded tuples: for each one, a `&` first
   * when the output so far is not empty, then the tuple's text.
   */
  function JoinTuples(es: seq<string>): string {
    if es == [] then ""
    else
      var output := JoinTuples(es[..|es| - 1]);
      (if output == "" then "" else output + "&") + es[|es| - 1]
  }

  function Serialize(tuples: seq<Pair>): string {
    JoinTuples(EncodeAll(tuples))
  }

  predicate AllNonEmpty(es: seq<string>) {
    forall i :: 0 <= i < |es| ==> es[i] != ""
  }

  lemma JoinTuplesNonEmpty(es: seq<string>)
    requires es != [] && AllNonEmpty(es)
    ensures JoinTuples(es) != ""
  {
  }

  /** Since no encoded tuple is empty, the loop joins the tuples with `&`. */
  lemma {:induction false} JoinTuplesCons(e: string, rest: seq<string>)
    requires e != "" && AllNonEmpty(rest)
    ensures JoinTuples([e] + rest) == if rest == [] then e else e + "&" + JoinTuples(rest)
    decreases |rest|
  {
    var all := [e] + rest;
    if rest == [] {
      assert all[..|all| - 1] == [];
    } else {
      var init := rest[..|rest| - 1];
      var last := rest[|rest| - 1];
      assert all[..|all| - 1] == [e] + init;
      assert all[|all| - 1] == last;
      JoinTuplesCons(e, init);
      JoinTuplesNonEmpty([e] + init);
      if init == [] {
        assert rest[..|rest| - 1] == [];
      } else {
        JoinTuplesNonEmpty(init);
      }
    }
  }

  /** The texts of `es`, each preceded by `&`. */
  function Separated(es: seq<string>): string {
    if es == [] then "" else Separated(es[..|es| - 1]) + "&" + es[|es| - 1]
  }

  /** What tuples appended to a non-empty list add to its serialisation. */
  function Continuation(tuples: seq<Pair>): string {
    Separated(EncodeAll(tuples))
  }

  lemma {:induction false} JoinTuplesAppend(es: seq<string>, fs: seq<string>)
    requires es != [] && AllNonEmpty(es)
    ensures JoinTuples(es + fs) == JoinTuples(es) + Separated(fs)
    decreases |fs|
  {
    if fs == [] {
      assert es + fs == es;
    } else {
      var init := fs[..|fs| - 1];
      var all := es + fs;
      assert all[..|all| - 1] == es + init;
      assert all[|all| - 1] == fs[|fs| - 1];
      JoinTuplesAppend(es, init);
      JoinTuplesNonEmpty(es);
      assert JoinTuples(es + init) != "";
    }
  }

  lemma {:induction false} SeparatedConcat(es: seq<string>, fs: seq<string>)
    ensures Separated(es + fs) == Separated(es) + Separated(fs)
    decreases |fs|
  {
    if fs == [] {
      assert es + fs == es;
    } else {
      var init := fs[..|fs| - 1];
      var all := es + fs;
      assert all[..|all| - 1] == es + init;
      assert all[|all| - 1] == fs[|fs| - 1];
      SeparatedConcat(es, init);
    }
  }

  /** Appending tuples to a non-empty list adds `&name=value` for each of them. */
  lemma SerializeAppend(a: seq<Pair>, b: seq<Pair>)
    requires a != []
    ensures Serialize(a + b) == Serialize(a) + Continuation(b)
  {
    var es := EncodeAll(a);
    forall i | 0 <= i < |es| ensures es[i] != "" {
      EncodePairShape(a[i]);
    }
    assert EncodeAll(a + b) == es + EncodeAll(b);
    JoinTuplesAppend(es, EncodeAll(b));
  }

  lemma ContinuationConcat(a: seq<Pair>, b: seq<Pair>)
    ensures Continuation(a + b) == Continuation(a) + Continuation(b)
  {
    assert EncodeAll(a + b) == EncodeAll(a) + EncodeAll(b);
    SeparatedConcat(EncodeAll(a), EncodeAll(b));
  }

  lemma EncodePairShape(p: Pair)
    ensures EncodePair(p) != ""
    ensures '&' !in EncodePair(p)
  {
    var e := EncodePair(p);
    assert e == EncodeComponent(p.0) + ['='] + EncodeComponent(p.1);
    assert e[|EncodeComponent(p.0)|] == '=';
  }

  /** Serialising reads as joining the encoded tuples with `&`. */
  lemma JoinTwo(w: string, x: string)
    requires w != ""
    ensures JoinTuples([w, x]) == w + "&" + x
  {
    assert [w][..0] == [];
    assert JoinTuples([w]) == w;
    assert [w, x][..1] == [w];
  }

  lemma JoinFour(w: string, x: string, y: string, z: string)
    requires w != "" && x != "" && y != ""
    ensures JoinTuples([w, x, y, z]) == w + "&" + x + "&" + y + "&" + z
  {
    JoinTwo(w, x);
    assert [w, x, y][..2] == [w, x];
    assert JoinTuples([w, x, y]) == w + "&" + x + "&" + y;
    assert [w, x, y, z][..3] == [w, x, y];
  }

  /** Two tuples are written as their texts joined by `&`. */
  lemma SerializeTwo(a: Pair, b: Pair)
    ensures Serialize([a, b]) == EncodePair(a) + "&" + EncodePair(b)
  {
    assert EncodeAll([a, b]) == [EncodePair(a), EncodePair(b)];
    EncodePairShape(a);
    JoinTwo(EncodePair(a), EncodePair(b));
  }

  lemma SerializeFour(a: Pair, b: Pair, c: Pair, d: Pair)
    ensures Serialize([a, b, c, d])
         == EncodePair(a) + "&" + EncodePair(b) + "&" + EncodePair(c) + "&" + EncodePair(d)
  {
    assert EncodeAll([a, b, c, d]) == [EncodePair(a), EncodePair(b), EncodePair(c), EncodePair(d)];
    EncodePairShape(a);
    EncodePairShape(b);
    EncodePairShape(c);
    JoinFour(EncodePair(a), EncodePair(b), EncodePair(c), EncodePair(d));
  }

  lemma SerializeCons(p: Pair, rest: seq<Pair>)
    ensures Serialize([p] + rest) == if rest == [] then EncodePair(p) else EncodePair(p) + "&" + Serialize(rest)
  {
    var es := EncodeAll(rest);
    assert EncodeAll([p] + rest) == [EncodePair(p)] + es;
    EncodePairShape(p);
    forall i | 0 <= i < |es| ensures es[i] != "" {
      EncodePairShape(rest[i]);
    }
    JoinTuplesCons(EncodePair(p), es);
  }

  // The inverse. It is stricter than the standard's parser (section 5.1),
  // which tolerates malformed escapes and malformed UTF-8: here those make
  // decoding fail. It exists to show that the serializer is injective.

  function PercentDecode(t: string): Option<seq<Utf8.byte>>
    decreases |t|
  {
    if t == [] then Some([])
    else if t[0] == '+' then Prepend(0x20, PercentDecode(t[1..]))
    else if t[0] == '%' then
      if |t| >= 3 && IsHexDigit(t[1]) && IsHexDigit(t[2])
      then Prepend(HexValue(t[1]) * 16 + HexValue(t[2]), PercentDecode(t[3..]))
      else None
    else if (t[0] as int) < 0x80 then Prepend(t[0] as int, PercentDecode(t[1..]))
    else None
  }

  function Prepend(b: Utf8.byte, rest: Option<seq<Utf8.byte>>): Option<seq<Utf8.byte>> {
    match rest
    case None => None
    case Some(bs) => Some([b] + bs)
  }

  function DecodeComponent(t: string): Option<string> {
    match PercentDecode(t)
    case None => None
    case Some(bs) => Utf8.Decode(bs)
  }

  lemma DecodeEncodedByte(b: Utf8.byte, rest: string)
    ensures PercentDecode(EncodeByte(b) + rest) == Prepend(b, PercentDecode(rest))
  {
    var t := EncodeByte(b) + rest;
    if b == 0x20 {
      assert t[1..] == rest;
    } else if InFormSet(b) {
      HexValueOfDigit(b / 16);
      HexValueOfDigit(b % 16);
      assert t[3..] == rest;
    } else {
      assert t[1..] == rest;
    }
  }

  lemma {:induction false} DecodeEncodedBytes(bs: seq<Utf8.byte>)
    ensures PercentDecode(EncodeBytes(bs)) == Some(bs)
  {
    if bs != [] {
      DecodeEncodedBytes(bs[1..]);
      DecodeEncodedByte(bs[0], EncodeBytes(bs[1..]));
      assert bs == [bs[0]] + bs[1..];
    }
  }

  /** Every name and value is recovered from its encoding. */
  lemma DecodeEncodeComponent(s: string)
    ensures DecodeComponent(EncodeComponent(s)) == Some(s)
  {
    DecodeEncodedBytes(Utf8.Encode(s));
    Utf8.DecodeEncode(s);
  }

  /** Position of the first `c` in `s`, or `|s|` when there is none. */
  function IndexOf(s: string, c: char): (i: nat)
    ensures i <= |s|
    ensures i < |s| ==> s[i] == c
    ensures c !in s[..i]
  {
    if s == [] then 0
    else if s[0] == c then 0
    else
      var i := 1 + IndexOf(s[1..], c);
      assert s[..i] == [s[0]] + s[1..][..i - 1];
      i
  }

  lemma {:induction false} IndexOfFirst(x: string, c: char, y: string)
    requires c !in x
    ensures IndexOf(x + y, c) == |x| + IndexOf(y, c)
  {
    if x == [] {
      assert x + y == y;
    } else {
      assert (x + y)[0] == x[0];
      assert (x + y)[1..] == x[1..] + y;
      IndexOfFirst(x[1..], c, y);
    }
  }

  function ParseTuple(seg: string): Option<Pair> {
    var i := IndexOf(seg, '=');
    var name := seg[..i];
    var value := if i < |seg| then seg[i + 1..] else "";
    match (DecodeComponent(name), DecodeComponent(value))
    case (Some(n), Some(v)) => Some((n, v))
    case _ => None
  }

  /** Splits at `&`, skips empty pieces and decodes each piece as a tuple. */
  function Parse(s: string): Option<seq<Pair>>
    decreases |s|
  {
    if s == "" then Some([])
    else
      var i := IndexOf(s, '&');
      var seg := s[..i];
      var rest := if i < |s| then s[i + 1..] else "";
      match Parse(rest)
      case None => None
      case Some(tail) =>
        if seg == "" then Some(tail)
        else match ParseTuple(seg)
          case None => None
          case Some(p) => Some([p] + tail)
  }

  lemma ParseEncodedPair(p: Pair)
    ensures ParseTuple(EncodePair(p)) == Some(p)
  {
    DecodeEncodeComponent(p.0);
    DecodeEncodeComponent(p.1);
    ParseTupleOf(EncodeComponent(p.0), EncodeComponent(p.1), p);
  }

  lemma ParseTupleOf(n: string, v: string, p: Pair)
    requires '=' !in n
    requires DecodeComponent(n) == Some(p.0) && DecodeComponent(v) == Some(p.1)
    ensures ParseTuple(n + "=" + v) == Some(p)
  {
    var seg := n + "=" + v;
    assert seg == n + ("=" + v);
    IndexOfFirst(n, '=', "=" + v);
    assert seg[..|n|] == n;
    assert seg[|n| + 1..] == v;
  }

  /** The serialisation determines the tuples, their order included. */
  lemma {:induction false} ParseSerialize(tuples: seq<Pair>)
    ensures Parse(Serialize(tuples)) == Some(tuples)
    decreases |tuples|
  {
    if tuples != [] {
      var p, rest := tuples[0], tuples[1..];
      assert tuples == [p] + rest;
      SerializeCons(p, rest);
      ParseSerialize(rest);
      ParseEncodedPair(p);
      EncodePairShape(p);
      ParseFirst(EncodePair(p), p, if rest == [] then None else Some(Serialize(rest)), rest);
    }
  }

  /** Parsing one encoded tuple, then possibly `&` and the rest. */
  lemma ParseFirst(e: string, p: Pair, more: Option<string>, tail: seq<Pair>)
    requires e != "" && '&' !in e && ParseTuple(e) == Some(p)
    requires more.None? ==> tail == []
    requires more.Some? ==> Parse(more.value) == Some(tail)
    ensures Parse(match more case None => e case Some(m) => e + "&" + m) == Some([p] + tail)
  {
    match more
    case None =>
      IndexOfFirst(e, '&', "");
      assert e + "" == e;
      assert e[..|e|] == e;
    case Some(m) =>
      var s := e + "&" + m;
      IndexOfFirst(e, '&', "&" + m);
      assert s == e + ("&" + m);
      assert s[..|e|] == e;
      assert s[|e| + 1..] == m;
  }
}
