/** Signed grant tokens (src/immich_bridge/authz.py): base64url without padding, section 5 of RFC 4648. */
module GrantTokens {
  import opened Wrappers
  import opened Text

  newtype Byte = n: nat | n < 256

  type Bytes = seq<Byte>

  // ---------- the alphabet ----------

  function Letter(v: nat): (c: char)
    requires v < 64
    ensures c != '=' && c != '.'
  {
    if v < 26 then (v + 65) as char
    else if v < 52 then (v + 71) as char
    else if v < 62 then (v - 4) as char
    else if v == 62 then '-' else '_'
  }

  /** The decoder's table after `-_` is translated to `+/`; None for any other character. */
  function Sextet(c: char): (v: Option<nat>)
    ensures v.Some? ==> v.value < 64
  {
    if IsUpper(c) then Some(c as nat - 65)
    else if IsLower(c) then Some(c as nat - 71)
    else if IsDigit(c) then Some(c as nat + 4)
    else if c == '-' || c == '+' then Some(62)
    else if c == '_' || c == '/' then Some(63)
    else None
  }

  lemma LetterSextet(v: nat)
    requires v < 64
    ensures Sextet(Letter(v)) == Some(v)
  {
  }

  // ---------- encoding ----------

  /** The four sextets of three bytes. */
  function First(a: Byte): nat { a as nat / 4 }
  function Second(a: Byte, b: Byte): nat { a as nat % 4 * 16 + b as nat / 16 }
  function Third(b: Byte, c: Byte): nat { b as nat % 16 * 4 + c as nat / 64 }
  function Fourth(c: Byte): nat { c as nat % 64 }

  /** The letters of three bytes, before `rest`. */
  function Quad(a: Byte, b: Byte, c: Byte, rest: string): (s: string)
    ensures |s| == 4 + |rest|
    ensures forall x :: x in s ==> x in rest || (x != '=' && x != '.')
  {
    [Letter(First(a))] + ([Letter(Second(a, b))] + ([Letter(Third(b, c))] + ([Letter(Fourth(c))] + rest)))
  }

  /** The letters of a last one or two bytes. */
  function Pair(a: Byte, rest: string): (s: string)
    ensures |s| == 2 + |rest|
  {
    [Letter(First(a))] + ([Letter(Second(a, 0))] + rest)
  }

  function Triple(a: Byte, b: Byte, rest: string): (s: string)
    ensures |s| == 3 + |rest|
  {
    [Letter(First(a))] + ([Letter(Second(a, b))] + ([Letter(Third(b, 0))] + rest))
  }

  /** `urlsafe_b64encode`, padded to a multiple of four. */
  function Encode(v: Bytes): (s: string)
    ensures |s| % 4 == 0
  {
    if v == [] then ""
    else if |v| == 1 then Pair(v[0], "==")
    else if |v| == 2 then Triple(v[0], v[1], "=")
    else Quad(v[0], v[1], v[2], Encode(v[3..]))
  }

  function Padding(n: nat): string {
    if n == 0 then "" else "=" + Padding(n - 1)
  }

  /** `_b64`: the padding stripped. */
  function B64(v: Bytes): string { StripRight(Encode(v), c => c == '=') }

  // ---------- decoding ----------

  /** The decoder's loop at place `quad` of a group: `left` holds the bits not yet written, `pads`
    * the padding seen; None is the ValueError. Characters outside the alphabet are skipped. */
  function Decode(s: string, quad: nat, left: nat, pads: nat): (r: Option<Bytes>)
    requires quad < 4 && left < 64 && (quad == 2 ==> left < 16) && (quad == 3 ==> left < 4)
    decreases |s|
  {
    if s == "" then (if quad == 0 then Some([]) else None)
    else if s[0] == '=' then
      if quad >= 2 && quad + pads + 1 >= 4 then Some([])
      else Decode(s[1..], quad, left, if quad >= 2 then pads + 1 else pads)
    else match Sextet(s[0])
      case None => Decode(s[1..], quad, left, pads)
      case Some(v) =>
        if quad == 0 then Decode(s[1..], 1, v, 0)
        else if quad == 1 then Emitted(left * 4 + v / 16, Decode(s[1..], 2, v % 16, 0))
        else if quad == 2 then Emitted(left * 16 + v / 4, Decode(s[1..], 3, v % 4, 0))
        else Emitted(left * 64 + v, Decode(s[1..], 0, 0, 0))
  }

  function Emitted(byte: nat, rest: Option<Bytes>): Option<Bytes>
    requires byte < 256
  {
    if rest.None? then None else Some([byte as Byte] + rest.value)
  }

  /** `_unb64`: pad to a multiple of four, then decode. */
  function Unb64(s: string): Option<Bytes> { Decode(s + Padding(Missing(s)), 0, 0, 0) }

  /** The loop on one more letter. */
  lemma DecodeLetter(v: nat, rest: string, quad: nat, left: nat)
    requires v < 64 && quad < 4 && left < 64 && (quad == 2 ==> left < 16) && (quad == 3 ==> left < 4)
    ensures Decode([Letter(v)] + rest, quad, left, 0)
         == if quad == 0 then Decode(rest, 1, v, 0)
            else if quad == 1 then Emitted(left * 4 + v / 16, Decode(rest, 2, v % 16, 0))
            else if quad == 2 then Emitted(left * 16 + v / 4, Decode(rest, 3, v % 4, 0))
            else Emitted(left * 64 + v, Decode(rest, 0, 0, 0))
  {
    LetterSextet(v);
    assert ([Letter(v)] + rest)[1..] == rest;
    hide Letter, Sextet, Emitted;
  }

  lemma Sextets(a: Byte, b: Byte, c: Byte)
    ensures First(a) < 64 && Second(a, b) < 64 && Third(b, c) < 64 && Fourth(c) < 64
    ensures First(a) * 4 + Second(a, b) / 16 == a as nat
    ensures Second(a, b) % 16 * 16 + Third(b, c) / 4 == b as nat
    ensures Third(b, c) % 4 * 64 + Fourth(c) == c as nat
  {
  }

  lemma DecodeQuad(a: Byte, b: Byte, c: Byte, rest: string)
    ensures Decode(Quad(a, b, c, rest), 0, 0, 0)
         == Emitted(a as nat, Emitted(b as nat, Emitted(c as nat, Decode(rest, 0, 0, 0))))
  {
    Sextets(a, b, c);
    hide Decode, Emitted, Letter, First, Second, Third, Fourth;
    var s3 := [Letter(Fourth(c))] + rest;
    var s2 := [Letter(Third(b, c))] + s3;
    var s1 := [Letter(Second(a, b))] + s2;
    DecodeLetter(First(a), s1, 0, 0);
    DecodeLetter(Second(a, b), s2, 1, First(a));
    DecodeLetter(Third(b, c), s3, 2, Second(a, b) % 16);
    DecodeLetter(Fourth(c), rest, 3, Third(b, c) % 4);
  }

  /** The loop on the padding of a last group. */
  lemma DecodePadding(left: nat)
    requires left < 16
    ensures Decode("==", 2, left, 0) == Some([])
    ensures left < 4 ==> Decode("=", 3, left, 0) == Some([])
  {
    hide Emitted, Sextet;
    assert "=="[1..] == "=";
    assert Decode("=", 2, left, 1) == Some([]);
  }

  lemma DecodePair(a: Byte)
    ensures Decode(Pair(a, "=="), 0, 0, 0) == Some([a])
  {
    hide Decode, Letter, First, Second;
    Sextets(a, 0, 0);
    DecodePadding(Second(a, 0) % 16);
    assert [a] + [] == [a];
    DecodeLetter(First(a), [Letter(Second(a, 0))] + "==", 0, 0);
    DecodeLetter(Second(a, 0), "==", 1, First(a));
  }

  lemma DecodeTriple(a: Byte, b: Byte)
    ensures Decode(Triple(a, b, "="), 0, 0, 0) == Some([a, b])
  {
    hide Decode, Letter, First, Second, Third;
    Sextets(a, b, 0);
    DecodePadding(Third(b, 0) % 4);
    assert [a] + ([b] + []) == [a, b];
    var s2 := [Letter(Third(b, 0))] + "=";
    DecodeLetter(First(a), [Letter(Second(a, b))] + s2, 0, 0);
    DecodeLetter(Second(a, b), s2, 1, First(a));
    DecodeLetter(Third(b, 0), "=", 2, Second(a, b) % 16);
  }

  lemma {:induction false} DecodeEncode(v: Bytes)
    ensures Decode(Encode(v), 0, 0, 0) == Some(v)
  {
    hide Pair, Triple, Quad;
    if |v| == 1 {
      DecodePair(v[0]);
      assert v == [v[0]];
    } else if |v| == 2 {
      DecodeTriple(v[0], v[1]);
      assert v == [v[0], v[1]];
    } else if |v| >= 3 {
      DecodeEncode(v[3..]);
      DecodeQuad(v[0], v[1], v[2], Encode(v[3..]));
      assert v == [v[0]] + ([v[1]] + ([v[2]] + v[3..]));
    }
  }

  /** The text without its padding; the padding is what `_unb64` puts back. */
  function Unpadded(v: Bytes): (s: string)
    ensures forall c :: c in s ==> c != '=' && c != '.'
  {
    if v == [] then ""
    else if |v| == 1 then Pair(v[0], "")
    else if |v| == 2 then Triple(v[0], v[1], "")
    else Quad(v[0], v[1], v[2], Unpadded(v[3..]))
  }

  function Missing(s: string): nat { (4 - |s| % 4) % 4 }

  lemma {:induction false} PaddingRestored(v: Bytes)
    ensures Encode(v) == Unpadded(v) + Padding(Missing(Unpadded(v)))
  {
    hide Quad, Pair, Triple;
    if |v| == 1 {
      PairAppend(v[0], "==");
      assert Padding(2) == "==";
    } else if |v| == 2 {
      TripleAppend(v[0], v[1], "=");
      assert Padding(1) == "=";
    } else if |v| >= 3 {
      PaddingRestored(v[3..]);
      QuadAppend(v[0], v[1], v[2], Unpadded(v[3..]), Padding(Missing(Unpadded(v[3..]))));
    }
  }

  lemma PairAppend(a: Byte, x: string)
    ensures |Pair(a, "")| == 2 && Pair(a, x) == Pair(a, "") + x
  {
    hide Letter;
  }

  lemma TripleAppend(a: Byte, b: Byte, x: string)
    ensures |Triple(a, b, "")| == 3 && Triple(a, b, x) == Triple(a, b, "") + x
  {
    hide Letter;
  }

  lemma QuadAppend(a: Byte, b: Byte, c: Byte, x: string, y: string)
    ensures Quad(a, b, c, x + y) == Quad(a, b, c, x) + y
  {
    hide Letter;
    FourAppend(Letter(First(a)), Letter(Second(a, b)), Letter(Third(b, c)), Letter(Fourth(c)), x, y);
  }

  lemma FourAppend(p: char, q: char, r: char, t: char, x: string, y: string)
    ensures [p] + ([q] + ([r] + ([t] + (x + y)))) == [p] + ([q] + ([r] + ([t] + x))) + y
  {
    assert [t] + (x + y) == ([t] + x) + y;
    assert [r] + (([t] + x) + y) == ([r] + ([t] + x)) + y;
  }

  lemma {:induction false} StripsPadding(s: string, n: nat)
    requires '=' !in s
    ensures StripRight(s + Padding(n), c => c == '=') == s
    decreases n
  {
    if n == 0 {
      assert s + Padding(0) == s;
    } else {
      PaddingLast(n);
      assert (s + Padding(n))[..|s + Padding(n)| - 1] == s + Padding(n - 1);
      StripsPadding(s, n - 1);
    }
  }

  lemma {:induction false} PaddingLast(n: nat)
    requires n > 0
    ensures Padding(n) == Padding(n - 1) + "="
  {
    if n > 1 { PaddingLast(n - 1); }
  }

  /** Padding stripped and restored: decoding gives back every byte string. */
  lemma Base64RoundTrip(v: Bytes)
    ensures Unb64(B64(v)) == Some(v)
    ensures '.' !in B64(v)
  {
    PaddingRestored(v);
    StripsPadding(Unpadded(v), Missing(Unpadded(v)));
    DecodeEncode(v);
    hide Decode, Encode, Unpadded;
  }

  // ---------- tokens ----------

  /** HMAC-SHA-256 and JSON are not modelled: `mac`, `encode` and `decode` stand for them. */
  datatype Scheme<!P> = Scheme(mac: (string, Bytes) -> Bytes, encode: P -> Bytes, decode: Bytes -> Option<P>)

  ghost predicate DecodesOwn<P(!new)>(x: Scheme<P>) { forall p :: x.decode(x.encode(p)) == Some(p) }

  function SignGrants<P>(x: Scheme<P>, secret: string, payload: P): string {
    var bytes := x.encode(payload);
    B64(bytes) + "." + B64(x.mac(secret, bytes))
  }

  /** `verify_grants_token`: the parts around the first dot, decoded and checked. */
  function VerifyToken<P>(x: Scheme<P>, secret: string, token: string): Option<P> {
    if '.' !in token then None
    else
      var text := Split(token, '.')[0];
      SplitFirst(token, '.');
      var bytes, signature := Unb64(text), Unb64(token[|text| + 1..]);
      if bytes.None? || signature.None? || signature.value != x.mac(secret, bytes.value) then None
      else x.decode(bytes.value)
  }

  lemma {:induction false} SplitFirst(s: string, sep: char)
    requires sep in s
    ensures |Split(s, sep)[0]| < |s|
  {
    if s[0] != sep { SplitFirst(s[1..], sep); }
  }

  /** A token verifies to its payload under every secret that gives the same signature, and to
    * nothing under any other; in particular under the secret it was signed with. */
  lemma TokenRoundTrip<P(!new)>(x: Scheme<P>, signer: string, secret: string, payload: P)
    requires DecodesOwn(x)
    ensures VerifyToken(x, secret, SignGrants(x, signer, payload))
         == (if x.mac(secret, x.encode(payload)) == x.mac(signer, x.encode(payload)) then Some(payload) else None)
  {
    var bytes := x.encode(payload);
    var text, rest := B64(bytes), B64(x.mac(signer, bytes));
    Base64RoundTrip(bytes);
    Base64RoundTrip(x.mac(signer, bytes));
    hide Unb64, B64;
    assert SignGrants(x, signer, payload) == text + ['.'] + rest;
    SplitAtSeparator(text, '.', rest);
    assert (text + ['.'] + rest)[|text| + 1..] == rest;
  }
}
