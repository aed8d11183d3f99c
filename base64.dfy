/**
 * Base 64 encoding as defined in section 4 of RFC 4648 (the alphabet of its
 * Table 1, with '=' padding), used by `base64.b64encode` and
 * `base64.b64decode` around the Vault transit calls. Every 3 input bytes
 * become 4 sextets; a final group of 1 or 2 bytes becomes 2 or 3 sextets and
 * the output is padded with "==" or "=" to a multiple of 4 characters.
 */
module Base64 {
  import opened Wrappers
  import opened Binary
  import opened Exceptions

  const PAD: char := '='

  /** The character of a 6-bit value (Table 1 of RFC 4648). */
  function Sym(i: nat): (c: char)
    requires i < 64
    ensures c != PAD
  {
    if i < 26 then ('A' as int + i) as char
    else if i < 52 then ('a' as int + (i - 26)) as char
    else if i < 62 then ('0' as int + (i - 52)) as char
    else if i == 62 then '+'
    else '/'
  }

  /** The 6-bit value of an alphabet character; None for any other character. */
  function Value(c: char): (r: Option<nat>)
    ensures r.Some? ==> r.value < 64 && Sym(r.value) == c
    ensures c == PAD ==> r.None?
  {
    if 'A' <= c <= 'Z' then Some(c as int - 'A' as int)
    else if 'a' <= c <= 'z' then Some(c as int - 'a' as int + 26)
    else if '0' <= c <= '9' then Some(c as int - '0' as int + 52)
    else if c == '+' then Some(62)
    else if c == '/' then Some(63)
    else None
  }

  lemma ValueSym(i: nat)
    requires i < 64
    ensures Value(Sym(i)) == Some(i)
  {
  }

  predicate AllSextets(xs: seq<nat>) {
    forall k :: 0 <= k < |xs| ==> xs[k] < 64
  }

  /**
   * The four sextets of a 24-bit group of three octets, most significant bits
   * first; a final group of one or two octets is completed with zero bits.
   */
  function Split(x0: byte, x1: byte, x2: byte): (g: seq<nat>)
    ensures |g| == 4 && AllSextets(g)
  {
    [x0 as int / 4, (x0 as int % 4) * 16 + x1 as int / 16, (x1 as int % 16) * 4 + x2 as int / 64, x2 as int % 64]
  }

  /** The three octets of a 24-bit group given as four sextets. */
  function Join(s0: nat, s1: nat, s2: nat, s3: nat): (o: Bytes)
    requires s0 < 64 && s1 < 64 && s2 < 64 && s3 < 64
    ensures |o| == 3
  {
    [(s0 * 4 + s1 / 16) as byte, ((s1 % 16) * 16 + s2 / 4) as byte, ((s2 % 4) * 64 + s3) as byte]
  }

  /** The sextets of the input, group by group, without padding. */
  function Sextets(b: Bytes): (xs: seq<nat>)
    ensures AllSextets(xs)
    ensures |xs| == |b| / 3 * 4 + (if |b| % 3 == 0 then 0 else |b| % 3 + 1)
    decreases |b|
  {
    if |b| == 0 then []
    else if |b| == 1 then Split(b[0], 0, 0)[..2]
    else if |b| == 2 then Split(b[0], b[1], 0)[..3]
    else Split(b[0], b[1], b[2]) + Sextets(b[3..])
  }

  /** The alphabet characters of a sequence of sextets. */
  function Chars(xs: seq<nat>): (s: string)
    requires AllSextets(xs)
    ensures |s| == |xs|
    ensures forall k :: 0 <= k < |s| ==> s[k] != PAD
  {
    seq(|xs|, k requires 0 <= k < |xs| => Sym(xs[k]))
  }

  function Padding(n: nat): string {
    if n % 3 == 1 then "==" else if n % 3 == 2 then "=" else ""
  }

  /** `base64.b64encode`: the characters of the sextets, padded to a multiple of 4. */
  function Encode(b: Bytes): (r: string)
    ensures |r| == (|b| + 2) / 3 * 4
  {
    Chars(Sextets(b)) + Padding(|b|)
  }

  /** The sextets of alphabet characters; None when a character is outside the alphabet. */
  function Values(s: string): (r: Option<seq<nat>>)
    ensures r.Some? ==> |r.value| == |s| && AllSextets(r.value)
  {
    if s == [] then Some([])
    else
      match (Value(s[0]), Values(s[1..]))
      case (Some(x), Some(rest)) => Some([x] + rest)
      case _ => None
  }

  /** Reassembles octets from sextets: 4 give 3, a final 3 give 2 and a final 2 give 1. */
  function Octets(xs: seq<nat>): (r: Result<Bytes, Error>)
    requires AllSextets(xs)
    ensures r.Failure? ==> r.error == Base64Error
    ensures r.Failure? <==> |xs| % 4 == 1
    ensures r.Success? ==> |r.value| == |xs| * 3 / 4
    decreases |xs|
  {
    if |xs| == 0 then Success([])
    else if |xs| == 1 then Failure(Base64Error)
    else if |xs| == 2 then Success(Join(xs[0], xs[1], 0, 0)[..1])
    else if |xs| == 3 then Success(Join(xs[0], xs[1], xs[2], 0)[..2])
    else
      var rest :- Octets(xs[4..]);
      Success(Join(xs[0], xs[1], xs[2], xs[3]) + rest)
  }

  /** The number of '=' characters that end the input, up to two. */
  function PadCount(s: string): (p: nat)
    ensures p <= 2 && p <= |s|
  {
    if |s| >= 2 && s[|s| - 2] == PAD && s[|s| - 1] == PAD then 2
    else if |s| >= 1 && s[|s| - 1] == PAD then 1
    else 0
  }

  /**
   * `base64.b64decode` on canonical input: a length that is not a multiple of
   * 4, or a character outside the alphabet before the final padding, is a
   * `binascii.Error`.
   */
  function Decode(s: string): (r: Result<Bytes, Error>)
    ensures r.Failure? ==> r.error == Base64Error
    ensures r.Success? ==> |s| % 4 == 0 && |r.value| == (|s| - PadCount(s)) * 3 / 4
  {
    if |s| % 4 != 0 then Failure(Base64Error)
    else
      match Values(s[..|s| - PadCount(s)])
      case None => Failure(Base64Error)
      case Some(xs) => Octets(xs)
  }

  /** The bit arithmetic of one group: joining its four sextets gives back its three octets. */
  lemma JoinSplit(x0: byte, x1: byte, x2: byte)
    ensures var g := Split(x0, x1, x2); Join(g[0], g[1], g[2], g[3]) == [x0, x1, x2]
  {
  }

  /** A final group of one octet: its two sextets give the octet back. */
  lemma OctetsSextetsOne(b: Bytes)
    requires |b| == 1
    ensures Octets(Sextets(b)) == Success(b)
  {
    var g := Split(b[0], 0, 0);
    assert Sextets(b) == g[..2];
    assert g[2] == 0 && g[3] == 0;
    JoinSplit(b[0], 0, 0);
    assert Join(g[0], g[1], 0, 0) == [b[0], 0, 0];
    assert [b[0], 0, 0][..1] == b;
  }

  /** A final group of two octets: its three sextets give the octets back. */
  lemma OctetsSextetsTwo(b: Bytes)
    requires |b| == 2
    ensures Octets(Sextets(b)) == Success(b)
  {
    var g := Split(b[0], b[1], 0);
    assert Sextets(b) == g[..3];
    assert g[3] == 0;
    JoinSplit(b[0], b[1], 0);
    assert Join(g[0], g[1], g[2], 0) == [b[0], b[1], 0];
    assert [b[0], b[1], 0][..2] == b;
  }

  /** Reassembling the sextets of `b` gives back `b`. */
  lemma {:induction false} OctetsSextets(b: Bytes)
    ensures Octets(Sextets(b)) == Success(b)
    decreases |b|
  {
    if |b| == 1 {
      OctetsSextetsOne(b);
    } else if |b| == 2 {
      OctetsSextetsTwo(b);
    } else if |b| >= 3 {
      var g := Split(b[0], b[1], b[2]);
      var xs := Sextets(b);
      assert xs[..4] == g && xs[4..] == Sextets(b[3..]);
      JoinSplit(b[0], b[1], b[2]);
      OctetsSextets(b[3..]);
      assert [b[0], b[1], b[2]] + b[3..] == b;
    }
  }

  /** Reading back the characters of sextets gives the sextets. */
  lemma {:induction false} ValuesChars(xs: seq<nat>)
    requires AllSextets(xs)
    ensures Values(Chars(xs)) == Some(xs)
  {
    if xs != [] {
      var s := Chars(xs);
      ValueSym(xs[0]);
      assert s[1..] == Chars(xs[1..]);
      ValuesChars(xs[1..]);
      assert [xs[0]] + xs[1..] == xs;
    }
  }

  /** Padding is recognised exactly when the body holds no '='. */
  lemma PadCountPadded(body: string, n: nat)
    requires forall k :: 0 <= k < |body| ==> body[k] != PAD
    requires |body| >= 2 || n % 3 == 0
    ensures PadCount(body + Padding(n)) == |Padding(n)|
    ensures (body + Padding(n))[..|body|] == body
  {
    var s := body + Padding(n);
    if n % 3 == 0 {
      assert s == body;
    }
  }

  /** Decoding undoes encoding: `b64decode(b64encode(b)) == b`. */
  lemma DecodeEncode(b: Bytes)
    ensures Decode(Encode(b)) == Success(b)
  {
    var xs := Sextets(b);
    var body := Chars(xs);
    var s := Encode(b);
    assert |s| % 4 == 0;
    PadCountPadded(body, |b|);
    assert s[..|s| - PadCount(s)] == body;
    ValuesChars(xs);
    OctetsSextets(b);
  }
}
