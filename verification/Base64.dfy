/** The base64 printer and parser of base64.cpp, against the encoding of RFC 4648, section 4. */
module Base64 {
  import opened Bytes

  const BASE64_CHARS: string :=
    "ABCDEFGHIJKLMNOPQRSTUVWXYZ" + "abcdefghijklmnopqrstuvwxyz" + "0123456789+/"

  // isalnum in the C locale, '+' or '/'
  predicate IsBase64(c: char) {
    'A' <= c <= 'Z' || 'a' <= c <= 'z' || '0' <= c <= '9' || c == '+' || c == '/'
  }

  // ---- The alphabet ----

  // The value of a character; 255 is (unsigned char) npos.
  function Value(c: char): (v: Byte)
    ensures v < 64 <==> IsBase64(c)
    ensures v < 64 || v == 255
  {
    if 'A' <= c <= 'Z' then c as int - 'A' as int
    else if 'a' <= c <= 'z' then c as int - 'a' as int + 26
    else if '0' <= c <= '9' then c as int - '0' as int + 52
    else if c == '+' then 62
    else if c == '/' then 63
    else 255
  }

  type Sextet = x: int | 0 <= x < 64

  function Char(v: Sextet): (c: char)
    ensures IsBase64(c) && Value(c) == v
  {
    if v < 26 then ('A' as int + v) as char
    else if v < 52 then ('a' as int + v - 26) as char
    else if v < 62 then ('0' as int + v - 52) as char
    else if v == 62 then '+'
    else '/'
  }

  lemma CharValue(c: char)
    requires IsBase64(c)
    ensures Char(Value(c)) == c
  {}

  // The table is the alphabet of RFC 4648, table 1.
  lemma Table(v: Sextet)
    ensures |BASE64_CHARS| == 64 && BASE64_CHARS[v] == Char(v)
  {}

  // std::string::find on the table, with npos truncated to a byte.
  method Find(c: char) returns (v: Byte)
    ensures v == Value(c)
  {
    hide BASE64_CHARS;
    for k := 0 to 64
      invariant forall i :: 0 <= i < k ==> Char(i) != c
    {
      Table(k);
      if BASE64_CHARS[k] == c {
        return k;
      }
    }
    if IsBase64(c) {
      CharValue(c);
    }
    return 255;
  }

  // ---- RFC 4648, section 4 ----

  // A 24-bit group as four 6-bit numbers, and back.
  function Sextets(a: Byte, b: Byte, c: Byte): (v: seq<Sextet>)
    ensures |v| == 4
  {
    var n := (a * 256 + b) * 256 + c;
    [n / 64 / 64 / 64, n / 64 / 64 % 64, n / 64 % 64, n % 64]
  }

  function Octets(v: Sextet, w: Sextet, x: Sextet, y: Sextet): (r: seq<Byte>)
    ensures |r| == 3
  {
    var n := ((v * 64 + w) * 64 + x) * 64 + y;
    [n / 256 / 256, n / 256 % 256, n % 256]
  }

  function Group(a: Byte, b: Byte, c: Byte): (g: string)
    ensures |g| == 4 && forall i :: 0 <= i < 4 ==> IsBase64(g[i]) && Value(g[i]) == Sextets(a, b, c)[i]
  {
    var v := Sextets(a, b, c);
    [Char(v[0]), Char(v[1]), Char(v[2]), Char(v[3])]
  }

  function Encode(b: seq<Byte>): string
    decreases |b|
  {
    if b == [] then ""
    else if |b| == 1 then Group(b[0], 0, 0)[..2] + "=="
    else if |b| == 2 then Group(b[0], b[1], 0)[..3] + "="
    else Group(b[0], b[1], b[2]) + Encode(b[3..])
  }

  // What the parser reads: everything up to the first character outside the alphabet.
  function Prefix(s: string): (p: string)
    ensures p <= s && forall i :: 0 <= i < |p| ==> IsBase64(p[i])
    ensures |p| < |s| ==> !IsBase64(s[|p|])
  {
    if s == "" || !IsBase64(s[0]) then "" else [s[0]] + Prefix(s[1..])
  }

  // Groups of four characters; a last group of two or three characters yields one or two bytes, one yields none.
  function Unpack(p: string): seq<Byte>
    requires forall i :: 0 <= i < |p| ==> IsBase64(p[i])
    decreases |p|
  {
    if |p| < 2 then []
    else if |p| == 2 then Octets(Value(p[0]), Value(p[1]), 0, 0)[..1]
    else if |p| == 3 then Octets(Value(p[0]), Value(p[1]), Value(p[2]), 0)[..2]
    else Octets(Value(p[0]), Value(p[1]), Value(p[2]), Value(p[3])) + Unpack(p[4..])
  }

  function Decode(s: string): seq<Byte> {
    Unpack(Prefix(s))
  }

  // The encodings of section 4: whole groups, correct padding, and no leftover bits set.
  predicate Canonical(s: string)
    decreases |s|
  {
    if s == "" then true
    else if |s| < 4 || !IsBase64(s[0]) || !IsBase64(s[1]) then false
    else if IsBase64(s[2]) && IsBase64(s[3]) then Canonical(s[4..])
    else
      && |s| == 4 && s[3] == '='
      && if s[2] == '=' then Value(s[1]) % 16 == 0 else IsBase64(s[2]) && Value(s[2]) % 4 == 0
  }

  // ---- Round trips ----

  // The masks and shifts of the code: sextets and octets cut at byte borders.
  lemma SextetsMasks(a: Byte, b: Byte, c: Byte)
    ensures Sextets(a, b, c) == [a / 4, a % 4 * 16 + b / 16, b % 16 * 4 + c / 64, c % 64]
  {
    var d0, d1, d2, d3 := a / 4, a % 4 * 16 + b / 16, b % 16 * 4 + c / 64, c % 64;
    assert (a * 256 + b) * 256 + c == 64 * (64 * (64 * d0 + d1) + d2) + d3;
    Cut64(64 * (64 * d0 + d1) + d2, d3);
    Cut64(64 * d0 + d1, d2);
    Cut64(d0, d1);
  }

  lemma OctetsMasks(v: Sextet, w: Sextet, x: Sextet, y: Sextet)
    ensures Octets(v, w, x, y) == [v * 4 + w / 16, w % 16 * 16 + x / 4, x % 4 * 64 + y]
  {
    var b0, b1, b2 := v * 4 + w / 16, w % 16 * 16 + x / 4, x % 4 * 64 + y;
    assert ((v * 64 + w) * 64 + x) * 64 + y == 256 * (256 * b0 + b1) + b2;
    Cut256(256 * b0 + b1, b2);
    Cut256(b0, b1);
  }

  lemma Cut64(q: nat, r: Sextet)
    ensures (64 * q + r) / 64 == q && (64 * q + r) % 64 == r
  {}

  lemma Cut256(q: nat, r: Byte)
    ensures (256 * q + r) / 256 == q && (256 * q + r) % 256 == r
  {}

  lemma OctetsOfSextets(a: Byte, b: Byte, c: Byte)
    ensures var v := Sextets(a, b, c); Octets(v[0], v[1], v[2], v[3]) == [a, b, c]
    ensures c == 0 ==> Sextets(a, b, c)[3] == 0 && Sextets(a, b, c)[2] % 4 == 0
    ensures b == c == 0 ==> Sextets(a, b, c)[2] == 0 && Sextets(a, b, c)[1] % 16 == 0
  {
    SextetsMasks(a, b, c);
    hide Sextets, Octets;
    var v := Sextets(a, b, c);
    OctetsMasks(v[0], v[1], v[2], v[3]);
    Cut16(a % 4, b / 16);
    Cut4(b % 16, c / 64);
    assert a == a / 4 * 4 + a % 4 && b == b / 16 * 16 + b % 16 && c == c / 64 * 64 + c % 64;
  }

  lemma Cut16(q: nat, r: nat)
    requires r < 16
    ensures (q * 16 + r) / 16 == q && (q * 16 + r) % 16 == r
  {}

  lemma Cut4(q: nat, r: nat)
    requires r < 4
    ensures (q * 4 + r) / 4 == q && (q * 4 + r) % 4 == r
  {}

  lemma SextetsOfOctets(v: Sextet, w: Sextet, x: Sextet, y: Sextet)
    ensures var r := Octets(v, w, x, y); Sextets(r[0], r[1], r[2]) == [v, w, x, y]
    ensures y == 0 && x % 4 == 0 ==> Octets(v, w, x, y)[2] == 0
    ensures y == 0 && x == 0 && w % 16 == 0 ==> Octets(v, w, x, y)[1] == 0
  {
    var n := ((v * 64 + w) * 64 + x) * 64 + y;
    var r := Octets(v, w, x, y);
    var r0: int, r1: int, r2: int := r[0], r[1], r[2];
    assert (r0 * 256 + r1) * 256 + r2 == n;
    Cut64((v * 64 + w) * 64 + x, y);
    Cut64(v * 64 + w, x);
    Cut64(v, w);
    OctetsMasks(v, w, x, y);
  }

  lemma {:induction false} PrefixOf(p: string, t: string)
    requires forall i :: 0 <= i < |p| ==> IsBase64(p[i])
    ensures Prefix(p + t) == p + Prefix(t)
  {
    if p == "" {
      assert p + t == t;
    } else {
      assert (p + t)[1..] == p[1..] + t;
      PrefixOf(p[1..], t);
    }
  }

  // Decoding undoes encoding, for every byte sequence.
  lemma {:induction false} DecodeEncode(b: seq<Byte>)
    ensures Decode(Encode(b)) == b
    decreases |b|
  {
    hide Sextets, Octets, Char, Value, Group;
    if b != [] {
      var a1, a2 := if |b| > 1 then b[1] else 0, if |b| > 2 then b[2] else 0;
      var g := Group(b[0], a1, a2);
      OctetsOfSextets(b[0], a1, a2);
      if |b| == 1 {
        PrefixOf(g[..2], "==");
      } else if |b| == 2 {
        PrefixOf(g[..3], "=");
      } else {
        PrefixOf(g, Encode(b[3..]));
        DecodeEncode(b[3..]);
        assert (g + Prefix(Encode(b[3..])))[4..] == Prefix(Encode(b[3..]));
      }
    }
  }

  // The printer writes canonical strings of four characters for every three bytes begun.
  lemma {:induction false} EncodeCanonical(b: seq<Byte>)
    ensures Canonical(Encode(b)) && |Encode(b)| == 4 * ((|b| + 2) / 3)
    decreases |b|
  {
    hide Sextets, Octets, Char, Value, Group;
    if |b| == 1 {
      OctetsOfSextets(b[0], 0, 0);
    } else if |b| == 2 {
      OctetsOfSextets(b[0], b[1], 0);
    } else if |b| >= 3 {
      EncodeCanonical(b[3..]);
      assert Encode(b)[4..] == Encode(b[3..]);
    }
  }

  // A group of four characters is the group of the bytes it stands for.
  lemma GroupOfOctets(g: string, n: nat)
    requires |g| == n <= 4 && n >= 2 && forall i :: 0 <= i < n ==> IsBase64(g[i])
    requires n == 2 ==> Value(g[1]) % 16 == 0
    requires n == 3 ==> Value(g[2]) % 4 == 0
    ensures var x, y := if n > 2 then Value(g[2]) else 0, if n > 3 then Value(g[3]) else 0;
      var r := Octets(Value(g[0]), Value(g[1]), x, y);
      && Group(r[0], r[1], r[2])[..n] == g && (n < 4 ==> r[2] == 0) && (n < 3 ==> r[1] == 0)
  {
    hide Sextets, Octets, Char, Value, Group;
    var x, y := if n > 2 then Value(g[2]) else 0, if n > 3 then Value(g[3]) else 0;
    SextetsOfOctets(Value(g[0]), Value(g[1]), x, y);
    var r := Octets(Value(g[0]), Value(g[1]), x, y);
    forall i | 0 <= i < n ensures Group(r[0], r[1], r[2])[i] == g[i] {
      CharValue(g[i]);
      CharValue(Group(r[0], r[1], r[2])[i]);
    }
  }

  lemma UnpackGroupOf(g: string, p: string)
    requires |g| == 4 && forall i :: 0 <= i < |g + p| ==> IsBase64((g + p)[i])
    requires forall i :: 0 <= i < |p| ==> IsBase64(p[i])
    ensures forall i :: 0 <= i < 4 ==> IsBase64(g[i])
    ensures Unpack(g + p) == Octets(Value(g[0]), Value(g[1]), Value(g[2]), Value(g[3])) + Unpack(p)
  {
    hide Octets, Value;
    assert (g + p)[..4] == g && (g + p)[4..] == p;
    assert forall i :: 0 <= i < 4 ==> (g + p)[i] == g[i];
  }

  lemma EncodeGroupOf(r: seq<Byte>, b: seq<Byte>)
    requires |r| == 3
    ensures Encode(r + b) == Group(r[0], r[1], r[2]) + Encode(b)
  {
    hide Group;
    assert (r + b)[3..] == b;
  }

  lemma {:induction false} EncodeDecodeCanonical(s: string)
    requires Canonical(s)
    ensures Encode(Decode(s)) == s
    decreases |s|
  {
    hide Sextets, Octets, Char, Value, Group;
    if s != "" && IsBase64(s[2]) && IsBase64(s[3]) {
      var g, t := s[..4], s[4..];
      EncodeDecodeCanonical(t);
      assert s == g + t;
      PrefixOf(g, t);
      UnpackGroupOf(g, Prefix(t));
      GroupOfOctets(g, 4);
      var r := Octets(Value(g[0]), Value(g[1]), Value(g[2]), Value(g[3]));
      EncodeGroupOf(r, Decode(t));
    } else if s != "" {
      LastGroup(s, if IsBase64(s[2]) then 3 else 2);
    }
  }

  lemma LastGroup(s: string, n: nat)
    requires Canonical(s) && |s| == 4 && !IsBase64(s[3]) && n == if IsBase64(s[2]) then 3 else 2
    ensures Encode(Decode(s)) == s
  {
    hide Sextets, Octets, Char, Value, Group;
    assert s == s[..n] + s[n..];
    PrefixOf(s[..n], s[n..]);
    GroupOfOctets(s[..n], n);
    assert s[n..] == if n == 3 then "=" else "==";
  }

  // Encoding undoes decoding for the canonical strings and for no others.
  lemma EncodeDecode(s: string)
    ensures Encode(Decode(s)) == s <==> Canonical(s)
  {
    EncodeCanonical(Decode(s));
    if Canonical(s) {
      EncodeDecodeCanonical(s);
    }
  }

  // ---- The printer and the parser ----

  // The four mask-and-shift assignments of base64_encode.
  method PackGroup(char_array_3: array<Byte>, char_array_4: array<Byte>)
    requires char_array_3.Length == 3 && char_array_4.Length == 4 && char_array_3 != char_array_4
    modifies char_array_4
    ensures char_array_4[..] == Sextets(char_array_3[0], char_array_3[1], char_array_3[2])
  {
    SextetsMasks(char_array_3[0], char_array_3[1], char_array_3[2]);
    hide Sextets;
    char_array_4[0] := char_array_3[0] / 4;
    char_array_4[1] := char_array_3[0] % 4 * 16 + char_array_3[1] / 16;
    char_array_4[2] := char_array_3[1] % 16 * 4 + char_array_3[2] / 64;
    char_array_4[3] := char_array_3[2] % 64;
  }

  // The characters of a packed group, n of them.
  method Print(ghost g: string, char_array_4: array<Byte>, n: nat) returns (ret: string)
    requires char_array_4.Length == 4 && n <= 4 == |g|
    requires forall j :: 0 <= j < 4 ==> char_array_4[j] == Value(g[j]) < 64
    ensures ret == g[..n]
  {
    hide BASE64_CHARS;
    ret := "";
    for j := 0 to n
      invariant ret == g[..j]
    {
      Table(char_array_4[j]);
      CharValue(g[j]);
      ret := ret + [BASE64_CHARS[char_array_4[j]]];
    }
  }

  method Base64Encode(bytes: seq<Byte>) returns (ret: string)
    ensures ret == Encode(bytes)
  {
    hide Sextets, Char, Value, Group, Encode;
    ret := "";
    var i, p := 0, 0;
    var char_array_3, char_array_4 := new Byte[3], new Byte[4];
    while p < |bytes|
      invariant i < 3 && i <= p <= |bytes| && char_array_3[..i] == bytes[p - i..p]
      invariant Encode(bytes) == ret + Encode(bytes[p - i..])
    {
      assert bytes[p - i..p + 1] == bytes[p - i..p] + [bytes[p]];
      char_array_3[i] := bytes[p];
      assert char_array_3[..i + 1] == char_array_3[..i] + [char_array_3[i]];
      i := i + 1;
      p := p + 1;
      if i == 3 {
        ghost var b := bytes[p - 3..];
        EncodeStep(b);
        assert b[..3] == bytes[p - 3..p] == char_array_3[..3] && b[3..] == bytes[p..];
        assert b[0] == b[..3][0] && b[1] == b[..3][1] && b[2] == b[..3][2];
        PackGroup(char_array_3, char_array_4);
        var group := Print(Group(b[0], b[1], b[2]), char_array_4, 4);
        ret := ret + group;
        i := 0;
      }
    }
    if i != 0 {
      var last := PrintLast(char_array_3, char_array_4, i, bytes[p - i..]);
      ret := ret + last;
    } else {
      EncodeNothing(bytes[p..]);
    }
  }

  // The part of base64_encode after its loop: zero filling, the characters that carry bits, and '='.
  method PrintLast(char_array_3: array<Byte>, char_array_4: array<Byte>, n: nat, ghost b: seq<Byte>)
      returns (ret: string)
    requires char_array_3.Length == 3 && char_array_4.Length == 4 && char_array_3 != char_array_4
    requires 1 <= n <= 2 && char_array_3[..n] == b
    modifies char_array_3, char_array_4
    ensures ret == Encode(b)
  {
    hide Sextets, Char, Value, Group;
    for j := n to 3
      invariant char_array_3[..n] == b && forall k :: n <= k < j ==> char_array_3[k] == 0
    {
      char_array_3[j] := 0;
    }
    PackGroup(char_array_3, char_array_4);
    assert b[0] == char_array_3[0] && (n == 2 ==> b[1] == char_array_3[1]);
    ret := Print(Group(b[0], if n == 2 then b[1] else 0, 0), char_array_4, n + 1);
    var i := n;
    ghost var group := ret;
    while i < 3
      invariant n <= i <= 3 && ret == group + "=="[..i - n]
    {
      ret := ret + "=";
      i := i + 1;
    }
  }

  lemma EncodeStep(b: seq<Byte>)
    requires |b| >= 3
    ensures Encode(b) == Group(b[0], b[1], b[2]) + Encode(b[3..])
  {}

  lemma EncodeNothing(b: seq<Byte>)
    requires b == []
    ensures Encode(b) == ""
  {}

  // The three mask-and-shift results of base64_decode, truncated to bytes.
  function Merge0(c0: int, c1: int): Byte {
    (c0 * 4 + c1 / 16 % 4) % 256
  }

  function Merge1(c1: int, c2: int): Byte {
    (c1 % 16 * 16 + c2 / 4 % 16) % 256
  }

  function Merge2(c2: int, c3: int): Byte {
    (c2 % 4 * 64 + c3) % 256
  }

  lemma Small(n: nat, m: nat)
    requires n < m
    ensures n % m == n
  {}

  lemma MergesAreOctets(v: Sextet, w: Sextet, x: Sextet, y: Sextet)
    ensures Octets(v, w, x, y) == [Merge0(v, w), Merge1(w, x), Merge2(x, y)]
  {
    hide Octets;
    OctetsMasks(v, w, x, y);
    Small(w / 16, 4);
    Small(x / 4, 16);
    Small(v * 4 + w / 16, 256);
    Small(w % 16 * 16 + x / 4, 256);
    Small(x % 4 * 64 + y, 256);
  }

  method UnpackGroup(char_array_4: array<Byte>, char_array_3: array<Byte>)
    requires char_array_3.Length == 3 && char_array_4.Length == 4 && char_array_3 != char_array_4
    modifies char_array_3
    ensures char_array_3[..] == [Merge0(char_array_4[0], char_array_4[1]), Merge1(char_array_4[1], char_array_4[2]),
                                 Merge2(char_array_4[2], char_array_4[3])]
  {
    char_array_3[0] := Merge0(char_array_4[0], char_array_4[1]);
    char_array_3[1] := Merge1(char_array_4[1], char_array_4[2]);
    char_array_3[2] := Merge2(char_array_4[2], char_array_4[3]);
  }

  // The loop that replaces four characters by their values.
  method Values(chars: array<char>, char_array_4: array<Byte>)
    requires chars.Length == 4 && char_array_4.Length == 4
    modifies char_array_4
    ensures forall j :: 0 <= j < 4 ==> char_array_4[j] == Value(chars[j])
  {
    hide Value;
    for j := 0 to 4
      invariant forall k :: 0 <= k < j ==> char_array_4[k] == Value(chars[k])
    {
      char_array_4[j] := Find(chars[j]);
    }
  }

  // A group of n characters: the first n - 1 merged bytes do not see what stands behind the n-th value.
  lemma UnpackLast(p: string, v: seq<Byte>)
    requires 1 <= |p| <= 4 == |v| && forall i :: 0 <= i < |p| ==> IsBase64(p[i]) && v[i] == Value(p[i])
    ensures Unpack(p) == [Merge0(v[0], v[1]), Merge1(v[1], v[2]), Merge2(v[2], v[3])][..|p| - 1]
  {
    hide Octets, Value, Merge0, Merge1, Merge2;
    if |p| >= 2 {
      MergesAreOctets(v[0], v[1], if |p| > 2 then v[2] else 0, if |p| > 3 then v[3] else 0);
    }
  }

  lemma UnpackStep(p: string)
    requires |p| >= 4 && forall i :: 0 <= i < |p| ==> IsBase64(p[i])
    ensures Unpack(p) == Unpack(p[..4]) + Unpack(p[4..])
  {
    hide Octets, Value;
    assert p[..4][4..] == "";
  }

  // The values of a filled group and the bytes of its first n characters.
  method DecodeGroup(chars: array<char>, n: nat) returns (bytes: seq<Byte>)
    requires chars.Length == 4 && 1 <= n <= 4 && forall j :: 0 <= j < n ==> IsBase64(chars[j])
    ensures bytes == Unpack(chars[..n])
  {
    hide Value, Unpack, Merge0, Merge1, Merge2;
    var char_array_4, char_array_3 := new Byte[4], new Byte[3];
    Values(chars, char_array_4);
    UnpackGroup(char_array_4, char_array_3);
    UnpackLast(chars[..n], char_array_4[..]);
    bytes := [];
    for j := 0 to n - 1
      invariant bytes == char_array_3[..j]
    {
      bytes := bytes + [char_array_3[j]];
    }
  }

  // The loop's guard holds exactly inside the prefix.
  lemma ParsedSoFar(s: string, p: nat)
    requires p <= |Prefix(s)|
    ensures p < |Prefix(s)| <==> p < |s| && s[p] != '=' && IsBase64(s[p])
    ensures p < |Prefix(s)| ==> s[p] == Prefix(s)[p]
  {
    hide Prefix;
    assert Prefix(s) <= s;
  }

  lemma AllBase64(chars: array<char>, n: nat, p: string)
    requires n <= chars.Length && chars[..n] == p && forall j :: 0 <= j < |p| ==> IsBase64(p[j])
    ensures forall j :: 0 <= j < n ==> IsBase64(chars[j])
  {
    assert forall j :: 0 <= j < n ==> chars[j] == p[j];
  }

  method Base64Decode(encoded_string: string) returns (ret: seq<Byte>)
    ensures ret == Decode(encoded_string)
  {
    hide Value, Unpack, Prefix, IsBase64;
    ret := [];
    var i, p := 0, 0;
    var chars := new char[4];
    ghost var prefix := Prefix(encoded_string);
    ParsedSoFar(encoded_string, 0);
    while p < |encoded_string| && encoded_string[p] != '=' && IsBase64(encoded_string[p])
      invariant i < 4 && i <= p <= |prefix| && chars[..i] == prefix[p - i..p]
      invariant Unpack(prefix) == ret + Unpack(prefix[p - i..])
    {
      ParsedSoFar(encoded_string, p);
      assert prefix[p - i..p + 1] == prefix[p - i..p] + [prefix[p]];
      chars[i] := encoded_string[p];
      assert chars[..i + 1] == chars[..i] + [chars[i]];
      i := i + 1;
      p := p + 1;
      if i == 4 {
        ghost var rest := prefix[p - 4..];
        UnpackStep(rest);
        assert rest[..4] == prefix[p - 4..p] && rest[4..] == prefix[p..];
        AllBase64(chars, 4, rest[..4]);
        var group := DecodeGroup(chars, 4);
        ret := ret + group;
        i := 0;
      }
    }
    ParsedSoFar(encoded_string, p);
    if i != 0 {
      ghost var rest := prefix[p - i..];
      assert prefix[p - i..p] == rest;
      for j := i to 4
        invariant chars[..i] == rest
      {
        chars[j] := 0 as char;
      }
      AllBase64(chars, i, rest);
      var group := DecodeGroup(chars, i);
      ret := ret + group;
    } else {
      UnpackNothing(prefix[p..]);
    }
  }

  lemma UnpackNothing(p: string)
    requires p == ""
    ensures Unpack(p) == []
  {}

  // ---- The standard's examples ----

  // Section 10: the encodings of "", "f", "fo", "foo", and below of "foob", "fooba" and "foobar".
  lemma ShortVectors()
    ensures Encode([]) == ""
    ensures Encode([0x66]) == "Zg=="
    ensures Encode([0x66, 0x6f]) == "Zm8="
    ensures Encode([0x66, 0x6f, 0x6f]) == "Zm9v"
  {
    hide Group;
    GroupsOfFoo();
    EncodeGroupOf([0x66, 0x6f, 0x6f], []);
    assert [0x66, 0x6f, 0x6f] + [] == [0x66, 0x6f, 0x6f];
  }

  lemma LongVectors()
    ensures Encode([0x66, 0x6f, 0x6f, 0x62]) == "Zm9vYg=="
    ensures Encode([0x66, 0x6f, 0x6f, 0x62, 0x61]) == "Zm9vYmE="
    ensures Encode([0x66, 0x6f, 0x6f, 0x62, 0x61, 0x72]) == "Zm9vYmFy"
  {
    hide Group;
    var foo: seq<Byte> := [0x66, 0x6f, 0x6f];
    GroupsOfFoo();
    EncodeGroupOf(foo, [0x62]);
    EncodeGroupOf(foo, [0x62, 0x61]);
    EncodeGroupOf(foo, [0x62, 0x61, 0x72]);
    EncodeGroupOf([0x62, 0x61, 0x72], []);
    assert Encode([]) == "" && [0x62, 0x61, 0x72] + [] == [0x62, 0x61, 0x72];
  }

  lemma SextetsOf(a: Byte, b: Byte, c: Byte, v: Sextet, w: Sextet, x: Sextet, y: Sextet)
    requires (a * 256 + b) * 256 + c == 64 * (64 * (64 * v + w) + x) + y
    ensures Sextets(a, b, c) == [v, w, x, y]
  {
    Cut64(64 * (64 * v + w) + x, y);
    Cut64(64 * v + w, x);
    Cut64(v, w);
  }

  lemma GroupOf(a: Byte, b: Byte, c: Byte, v: Sextet, w: Sextet, x: Sextet, y: Sextet)
    requires (a * 256 + b) * 256 + c == 64 * (64 * (64 * v + w) + x) + y
    ensures Group(a, b, c) == [Char(v), Char(w), Char(x), Char(y)]
  {
    hide Char, Value, Sextets;
    SextetsOf(a, b, c, v, w, x, y);
  }

  lemma GroupsOfFoo()
    ensures Group(0x66, 0, 0)[..2] == "Zg" && Group(0x66, 0x6f, 0)[..3] == "Zm8" && Group(0x66, 0x6f, 0x6f) == "Zm9v"
    ensures Group(0x62, 0, 0)[..2] == "Yg" && Group(0x62, 0x61, 0)[..3] == "YmE" && Group(0x62, 0x61, 0x72) == "YmFy"
  {
    hide Group, Value;
    GroupOf(0x66, 0, 0, 25, 32, 0, 0);
    GroupOf(0x66, 0x6f, 0, 25, 38, 60, 0);
    GroupOf(0x66, 0x6f, 0x6f, 25, 38, 61, 47);
    GroupOf(0x62, 0, 0, 24, 32, 0, 0);
    GroupOf(0x62, 0x61, 0, 24, 38, 4, 0);
    GroupOf(0x62, 0x61, 0x72, 24, 38, 5, 50);
  }

  // Table 1: the 48 bytes that are the sextets 0 to 63 in order.
  lemma Alphabet()
    ensures Encode([0x00, 0x10, 0x83, 0x10, 0x51, 0x87, 0x20, 0x92, 0x8b, 0x30, 0xd3, 0x8f] +
                   ([0x41, 0x14, 0x93, 0x51, 0x55, 0x97, 0x61, 0x96, 0x9b, 0x71, 0xd7, 0x9f] +
                   ([0x82, 0x18, 0xa3, 0x92, 0x59, 0xa7, 0xa2, 0x9a, 0xab, 0xb2, 0xdb, 0xaf] +
                   [0xc3, 0x1c, 0xb3, 0xd3, 0x5d, 0xb7, 0xe3, 0x9e, 0xbb, 0xf3, 0xdf, 0xbf])))
      == "ABCDEFGHIJKLMNOP" + ("QRSTUVWXYZabcdef" + ("ghijklmnopqrstuv" + "wxyz0123456789+/"))
  {
    hide Encode;
    var last: seq<Byte> := [0xc3, 0x1c, 0xb3, 0xd3, 0x5d, 0xb7, 0xe3, 0x9e, 0xbb, 0xf3, 0xdf, 0xbf];
    var third: seq<Byte> := [0x82, 0x18, 0xa3, 0x92, 0x59, 0xa7, 0xa2, 0x9a, 0xab, 0xb2, 0xdb, 0xaf];
    Quarter4([]);
    EncodeNothing([]);
    assert last + [] == last && "wxyz0123456789+/" + "" == "wxyz0123456789+/";
    Quarter3(last);
    Quarter2(third + last);
    Quarter1([0x41, 0x14, 0x93, 0x51, 0x55, 0x97, 0x61, 0x96, 0x9b, 0x71, 0xd7, 0x9f] + (third + last));
  }

  lemma Quarter1(rest: seq<Byte>)
    ensures Encode([0x00, 0x10, 0x83, 0x10, 0x51, 0x87, 0x20, 0x92, 0x8b, 0x30, 0xd3, 0x8f] + rest) ==
      "ABCDEFGHIJKLMNOP" + Encode(rest)
  {
    hide Group, Encode, Value;
    GroupOf(0x00, 0x10, 0x83, 0, 1, 2, 3);
    GroupOf(0x10, 0x51, 0x87, 4, 5, 6, 7);
    GroupOf(0x20, 0x92, 0x8b, 8, 9, 10, 11);
    GroupOf(0x30, 0xd3, 0x8f, 12, 13, 14, 15);
    FourGroups([0x00, 0x10, 0x83, 0x10, 0x51, 0x87, 0x20, 0x92, 0x8b, 0x30, 0xd3, 0x8f], rest);
  }

  lemma Quarter2(rest: seq<Byte>)
    ensures Encode([0x41, 0x14, 0x93, 0x51, 0x55, 0x97, 0x61, 0x96, 0x9b, 0x71, 0xd7, 0x9f] + rest) ==
      "QRSTUVWXYZabcdef" + Encode(rest)
  {
    hide Group, Encode, Value;
    GroupOf(0x41, 0x14, 0x93, 16, 17, 18, 19);
    GroupOf(0x51, 0x55, 0x97, 20, 21, 22, 23);
    GroupOf(0x61, 0x96, 0x9b, 24, 25, 26, 27);
    GroupOf(0x71, 0xd7, 0x9f, 28, 29, 30, 31);
    FourGroups([0x41, 0x14, 0x93, 0x51, 0x55, 0x97, 0x61, 0x96, 0x9b, 0x71, 0xd7, 0x9f], rest);
  }

  lemma Quarter3(rest: seq<Byte>)
    ensures Encode([0x82, 0x18, 0xa3, 0x92, 0x59, 0xa7, 0xa2, 0x9a, 0xab, 0xb2, 0xdb, 0xaf] + rest) ==
      "ghijklmnopqrstuv" + Encode(rest)
  {
    hide Group, Encode, Value;
    GroupOf(0x82, 0x18, 0xa3, 32, 33, 34, 35);
    GroupOf(0x92, 0x59, 0xa7, 36, 37, 38, 39);
    GroupOf(0xa2, 0x9a, 0xab, 40, 41, 42, 43);
    GroupOf(0xb2, 0xdb, 0xaf, 44, 45, 46, 47);
    FourGroups([0x82, 0x18, 0xa3, 0x92, 0x59, 0xa7, 0xa2, 0x9a, 0xab, 0xb2, 0xdb, 0xaf], rest);
  }

  lemma Quarter4(rest: seq<Byte>)
    ensures Encode([0xc3, 0x1c, 0xb3, 0xd3, 0x5d, 0xb7, 0xe3, 0x9e, 0xbb, 0xf3, 0xdf, 0xbf] + rest) ==
      "wxyz0123456789+/" + Encode(rest)
  {
    hide Group, Encode, Value;
    GroupOf(0xc3, 0x1c, 0xb3, 48, 49, 50, 51);
    GroupOf(0xd3, 0x5d, 0xb7, 52, 53, 54, 55);
    GroupOf(0xe3, 0x9e, 0xbb, 56, 57, 58, 59);
    GroupOf(0xf3, 0xdf, 0xbf, 60, 61, 62, 63);
    FourGroups([0xc3, 0x1c, 0xb3, 0xd3, 0x5d, 0xb7, 0xe3, 0x9e, 0xbb, 0xf3, 0xdf, 0xbf], rest);
  }

  lemma FourGroups(b: seq<Byte>, rest: seq<Byte>)
    requires |b| == 12
    ensures Encode(b + rest) == Group(b[0], b[1], b[2]) + Group(b[3], b[4], b[5]) + Group(b[6], b[7], b[8])
      + Group(b[9], b[10], b[11]) + Encode(rest)
  {
    hide Group, Encode;
    EncodeGroupOf(b[9..], rest);
    EncodeGroupOf(b[6..9], b[9..] + rest);
    EncodeGroupOf(b[3..6], b[6..9] + (b[9..] + rest));
    EncodeGroupOf(b[..3], b[3..6] + (b[6..9] + (b[9..] + rest)));
    assert b + rest == b[..3] + (b[3..6] + (b[6..9] + (b[9..] + rest)));
  }
}
