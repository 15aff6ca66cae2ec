/** The base64url codec of docs/doh-worker.js around btoa and atob (RFC 4648, sections 4 and 5). */
module Base64Url {
  import opened Bytes

  // ─── The standard alphabet ───────────────────────────────────────

  type sextet = x: nat | x < 64

  function Letter(s: sextet): char {
    if s < 26 then 'A' + s as char
    else if s < 52 then 'a' + (s - 26) as char
    else if s < 62 then '0' + (s - 52) as char
    else if s == 62 then '+'
    else '/'
  }

  function Value(c: char): Option<sextet> {
    if 'A' <= c <= 'Z' then Some(c as int - 'A' as int)
    else if 'a' <= c <= 'z' then Some(c as int - 'a' as int + 26)
    else if '0' <= c <= '9' then Some(c as int - '0' as int + 52)
    else if c == '+' then Some(62)
    else if c == '/' then Some(63)
    else None
  }

  lemma LetterValue(s: sextet)
    ensures Value(Letter(s)) == Some(s)
    ensures Letter(s) != '-' && Letter(s) != '_' && Letter(s) != '='
  {
  }

  // ─── btoa ────────────────────────────────────────────────────────

  function Quad(a: byte, b: byte, c: byte): seq<sextet> {
    [a / 4, a % 4 * 16 + b / 16, b % 16 * 4 + c / 64, c % 64]
  }

  /** The bits of the bytes, six at a time; a rest of one or two bytes is filled up with zero bits. */
  function Sextets(b: seq<byte>): seq<sextet> {
    if |b| == 0 then []
    else if |b| == 1 then [b[0] / 4, b[0] % 4 * 16]
    else if |b| == 2 then [b[0] / 4, b[0] % 4 * 16 + b[1] / 16, b[1] % 16 * 4]
    else Quad(b[0], b[1], b[2]) + Sextets(b[3..])
  }

  function LettersOf(v: seq<sextet>): string {
    seq(|v|, i requires 0 <= i < |v| => Letter(v[i]))
  }

  /** Padding brings the length to a multiple of four. */
  function Pads(n: nat): string {
    if n % 3 == 0 then "" else if n % 3 == 1 then "==" else "="
  }

  function Btoa(b: seq<byte>): string {
    LettersOf(Sextets(b)) + Pads(|b|)
  }

  // ─── atob ────────────────────────────────────────────────────────

  /** Up to two padding characters go when the length is a multiple of four. */
  function Unpad(s: string): string {
    if |s| == 0 || |s| % 4 != 0 then s
    else if s[|s| - 1] != '=' then s
    else if s[|s| - 2] != '=' then s[..|s| - 1]
    else s[..|s| - 2]
  }

  function Values(s: string): Option<seq<sextet>> {
    if |s| == 0 then Some([])
    else
      match (Value(s[0]), Values(s[1..]))
      case (Some(v), Some(vs)) => Some([v] + vs)
      case _ => None
  }

  /** Four sextets to three bytes; three or two leftover sextets to two bytes or one, spare bits dropped. */
  function Packed(v: seq<sextet>): seq<byte>
    requires |v| % 4 != 1
  {
    if |v| == 0 then []
    else if |v| == 2 then [First(v[0], v[1])]
    else if |v| == 3 then [First(v[0], v[1]), Second(v[1], v[2])]
    else [First(v[0], v[1]), Second(v[1], v[2]), Third(v[2], v[3])] + Packed(v[4..])
  }

  function First(s0: nat, s1: nat): byte
    requires s0 < 64 && s1 < 64
  {
    s0 * 4 + s1 / 16
  }

  function Second(s1: nat, s2: nat): byte
    requires s1 < 64 && s2 < 64
  {
    s1 % 16 * 16 + s2 / 4
  }

  function Third(s2: nat, s3: nat): byte
    requires s2 < 64 && s3 < 64
  {
    s2 % 4 * 64 + s3
  }

  /** ASCII white space. */
  predicate IsWhite(c: char) {
    c in {' ', '\t', '\n', '\r', '\U{C}'}
  }

  function NoWhite(s: string): string {
    if |s| == 0 then []
    else if IsWhite(s[|s| - 1]) then NoWhite(s[..|s| - 1])
    else NoWhite(s[..|s| - 1]) + [s[|s| - 1]]
  }

  /** White space is skipped; None where the browser throws: a character outside the alphabet, or one sextet left over. */
  function Atob(s: string): Option<seq<byte>> {
    var t := Unpad(NoWhite(s));
    if |t| % 4 == 1 then None
    else
      match Values(t)
      case None => None
      case Some(v) => ValuesLength(t); Some(Packed(v))
  }

  lemma {:induction false} ValuesLength(s: string)
    ensures Values(s).Some? ==> |Values(s).value| == |s|
  {
    if |s| > 0 {
      ValuesLength(s[1..]);
    }
  }

  // ─── The worker's two functions ──────────────────────────────────

  function Replace(s: string, a: char, b: char): string {
    seq(|s|, i requires 0 <= i < |s| => if s[i] == a then b else s[i])
  }

  /** replace(/=+$/, '') */
  function StripPadding(s: string): string {
    if |s| > 0 && s[|s| - 1] == '=' then StripPadding(s[..|s| - 1]) else s
  }

  function Encoded(bytes: seq<byte>): string {
    StripPadding(Replace(Replace(Btoa(bytes), '+', '-'), '/', '_'))
  }

  function PadFor(n: nat): string {
    if n % 4 == 1 then "===" else if n % 4 == 2 then "==" else if n % 4 == 3 then "=" else ""
  }

  function Repadded(s: string): string {
    s + PadFor(|s|)
  }

  function Decoded(s: string): Option<seq<byte>> {
    Atob(Repadded(Replace(Replace(s, '-', '+'), '_', '/')))
  }

  method BytesToBase64url(bytes: seq<byte>) returns (s: string)
    ensures s == Encoded(bytes)
  {
    var binStr: seq<byte> := [];
    for i := 0 to |bytes|
      invariant binStr == bytes[..i]
    {
      binStr := binStr + [bytes[i]];
    }
    assert bytes[..|bytes|] == bytes;
    s := Replace(Replace(Btoa(binStr), '+', '-'), '/', '_');
    ghost var full := s;
    while |s| > 0 && s[|s| - 1] == '='
      invariant StripPadding(s) == StripPadding(full)
      decreases |s|
    {
      s := s[..|s| - 1];
    }
  }

  lemma OnePadMore(s: string)
    requires |s| % 4 != 0
    ensures Repadded(s + "=") == Repadded(s)
    ensures |s + "="| % 4 == (|s| % 4 + 1) % 4
  {
  }

  method RestorePadding(s: string) returns (b64: string)
    ensures b64 == Repadded(s)
  {
    b64 := s;
    while |b64| % 4 != 0
      invariant Repadded(b64) == Repadded(s)
      decreases (4 - |b64| % 4) % 4
    {
      OnePadMore(b64);
      b64 := b64 + "=";
    }
  }

  method Base64urlToBytes(b64url: string) returns (bytes: Option<seq<byte>>)
    ensures bytes == Decoded(b64url)
  {
    var b64 := RestorePadding(Replace(Replace(b64url, '-', '+'), '_', '/'));
    var binStr := Atob(b64);
    if binStr.None? {
      return None;
    }
    var out := new byte[|binStr.value|];
    for i := 0 to |binStr.value|
      invariant forall k :: 0 <= k < i ==> out[k] == binStr.value[k]
    {
      out[i] := binStr.value[i];
    }
    assert out[..] == binStr.value;
    return Some(out[..]);
  }

  // ─── Decoding undoes encoding ────────────────────────────────────

  predicate Alphabetic(s: string) {
    forall i :: 0 <= i < |s| ==> Value(s[i]).Some?
  }

  lemma {:induction false} SextetsLength(b: seq<byte>)
    ensures |Sextets(b)| % 4 == if |b| % 3 == 0 then 0 else |b| % 3 + 1
  {
    if |b| >= 3 {
      SextetsLength(b[3..]);
    }
  }

  lemma PackedFour(s0: sextet, s1: sextet, s2: sextet, s3: sextet, rest: seq<sextet>)
    requires |rest| % 4 != 1
    ensures Packed([s0, s1, s2, s3] + rest) == [First(s0, s1), Second(s1, s2), Third(s2, s3)] + Packed(rest)
  {
    assert ([s0, s1, s2, s3] + rest)[4..] == rest;
  }

  lemma PackGroup(a: byte, b: byte, c: byte, q: seq<sextet>, rest: seq<sextet>)
    requires |q| == 4 && |rest| % 4 != 1
    requires First(q[0], q[1]) == a && Second(q[1], q[2]) == b && Third(q[2], q[3]) == c
    ensures Packed(q + rest) == [a, b, c] + Packed(rest)
  {
    PackedFour(q[0], q[1], q[2], q[3], rest);
    assert q == [q[0], q[1], q[2], q[3]];
  }

  lemma PackQuad(a: byte, b: byte, c: byte, rest: seq<sextet>)
    requires |rest| % 4 != 1
    ensures Packed(Quad(a, b, c) + rest) == [a, b, c] + Packed(rest)
  {
    ThreeBytes(a, b, c);
    PackGroup(a, b, c, Quad(a, b, c), rest);
  }

  lemma PackTwo(a: byte, b: byte)
    ensures Packed([a / 4, a % 4 * 16 + b / 16, b % 16 * 4]) == [a, b]
  {
    ThreeBytes(a, b, 0);
  }

  lemma PackOne(a: byte)
    ensures Packed([a / 4, a % 4 * 16]) == [a]
  {
    assert First(a / 4, a % 4 * 16) == a;
  }

  /** Joining the sextets gives the bytes back, in all three residues of the length. */
  lemma {:induction false} SextetsPack(b: seq<byte>)
    ensures |Sextets(b)| % 4 != 1 && Packed(Sextets(b)) == b
  {
    SextetsLength(b);
    if |b| >= 3 {
      SextetsPack(b[3..]);
      PackQuad(b[0], b[1], b[2], Sextets(b[3..]));
      assert b == [b[0], b[1], b[2]] + b[3..];
    } else if |b| == 2 {
      PackTwo(b[0], b[1]);
    } else if |b| == 1 {
      PackOne(b[0]);
    }
  }

  lemma {:induction false} ValuesOfLetters(v: seq<sextet>)
    ensures Values(LettersOf(v)) == Some(v)
  {
    if |v| > 0 {
      ValuesOfLetters(v[1..]);
      LetterValue(v[0]);
      assert LettersOf(v)[1..] == LettersOf(v[1..]);
      assert v == [v[0]] + v[1..];
    }
  }

  lemma LettersAlphabetic(v: seq<sextet>)
    ensures Alphabetic(LettersOf(v))
  {
    forall i | 0 <= i < |v| ensures Value(LettersOf(v)[i]).Some? {
      LetterValue(v[i]);
    }
  }

  /** Splitting 24 bits into sextets and joining them again. */
  lemma ThreeBytes(a: byte, b: byte, c: byte)
    ensures var s0, s1, s2, s3 := a / 4, a % 4 * 16 + b / 16, b % 16 * 4 + c / 64, c % 64;
            First(s0, s1) == a && Second(s1, s2) == b && Third(s2, s3) == c
  {
  }

  function Swapped(s: string): string {
    Replace(Replace(s, '+', '-'), '/', '_')
  }

  /** Swapping the two letters out and in again changes nothing in a string of the standard alphabet. */
  lemma SwapBack(s: string)
    requires Alphabetic(s)
    ensures Replace(Replace(Swapped(s), '-', '+'), '_', '/') == s
  {
    forall i | 0 <= i < |s| ensures s[i] != '-' && s[i] != '_' {
      assert Value(s[i]).Some?;
    }
  }

  lemma {:induction false} StripsPads(s: string, n: nat)
    requires Alphabetic(s)
    ensures StripPadding(Swapped(s + Pads(n))) == Swapped(s)
  {
    var t := Swapped(s);
    assert Swapped(s + Pads(n)) == t + Pads(n);
    forall i | 0 <= i < |s| ensures t[i] != '=' {
      assert Value(s[i]).Some?;
    }
    assert StripPadding(t) == t;
    if n % 3 == 1 {
      assert (t + "==")[..|t| + 1] == t + "=";
    }
    assert (t + "=")[..|t|] == t;
  }

  function Letters(bytes: seq<byte>): string {
    LettersOf(Sextets(bytes))
  }

  /** Encoded strings are URL-safe: no '+', '/' or '=' is left. */
  lemma EncodedIsUrlSafe(bytes: seq<byte>)
    ensures Encoded(bytes) == Swapped(Letters(bytes))
    ensures forall i :: 0 <= i < |Encoded(bytes)| ==> Encoded(bytes)[i] !in {'+', '/', '='}
  {
    LettersAlphabetic(Sextets(bytes));
    StripsPads(Letters(bytes), |bytes|);
    forall i | 0 <= i < |Letters(bytes)| ensures Swapped(Letters(bytes))[i] !in {'+', '/', '='} {
      assert Value(Letters(bytes)[i]).Some?;
    }
  }

  lemma UnpadRepadded(s: string)
    requires Alphabetic(s) && |s| % 4 != 1
    ensures Unpad(Repadded(s)) == s
  {
    assert |s| > 0 ==> Value(s[|s| - 1]).Some?;
    if |s| % 4 == 2 {
      UnpadTwo(s);
    } else if |s| % 4 == 3 {
      UnpadOne(s);
    }
  }

  lemma UnpadTwo(s: string)
    requires |s| % 4 == 2
    ensures Unpad(s + "==") == s
  {
    assert (s + "==")[..|s|] == s;
  }

  lemma UnpadOne(s: string)
    requires |s| % 4 == 3 && s[|s| - 1] != '='
    ensures Unpad(s + "=") == s
  {
    assert (s + "=")[..|s|] == s;
  }

  lemma AtobOfLetters(bytes: seq<byte>, s: string)
    requires Unpad(NoWhite(s)) == Letters(bytes)
    ensures Atob(s) == Some(bytes)
  {
    SextetsPack(bytes);
    ValuesOfLetters(Sextets(bytes));
  }

  predicate Clean(s: string) {
    forall i :: 0 <= i < |s| ==> !IsWhite(s[i])
  }

  lemma {:induction false} CleanStays(s: string, t: string)
    requires Clean(t)
    ensures NoWhite(s + t) == NoWhite(s) + t
    decreases |t|
  {
    var all := s + t;
    if |t| == 0 {
      assert all == s;
    } else {
      CleanStays(s, t[..|t| - 1]);
      assert all[..|all| - 1] == s + t[..|t| - 1];
    }
  }

  lemma CleanIsKept(s: string)
    requires Clean(s)
    ensures NoWhite(s) == s
  {
    CleanStays([], s);
    assert [] + s == s;
  }

  lemma CleanLetters(s: string)
    requires Alphabetic(s)
    ensures NoWhite(Repadded(s)) == Repadded(s)
  {
    forall i | 0 <= i < |s| ensures !IsWhite(s[i]) {
      assert Value(s[i]).Some?;
    }
    CleanIsKept(s);
    CleanStays(s, PadFor(|s|));
  }

  /** For every byte array. */
  lemma DecodingUndoesEncoding(bytes: seq<byte>)
    ensures Decoded(Encoded(bytes)) == Some(bytes)
  {
    var letters := Letters(bytes);
    EncodedIsUrlSafe(bytes);
    LettersAlphabetic(Sextets(bytes));
    SwapBack(letters);
    SextetsLength(bytes);
    UnpadRepadded(letters);
    CleanLetters(letters);
    AtobOfLetters(bytes, Repadded(letters));
  }

  /** Decoding accepts the padded spelling as well. */
  lemma DecodingIgnoresPadding(bytes: seq<byte>)
    ensures Decoded(Encoded(bytes) + Pads(|bytes|)) == Some(bytes)
  {
    var letters := Letters(bytes);
    EncodedIsUrlSafe(bytes);
    LettersAlphabetic(Sextets(bytes));
    SextetsLength(bytes);
    UnpadRepadded(letters);
    CleanLetters(letters);
    PaddedSpelling(letters, |bytes|);
    AtobOfLetters(bytes, Repadded(letters));
  }

  lemma PaddedSpelling(letters: string, n: nat)
    requires Alphabetic(letters)
    requires |letters| % 4 == if n % 3 == 0 then 0 else n % 3 + 1
    ensures Decoded(Swapped(letters) + Pads(n)) == Atob(Repadded(letters))
  {
    var s := Swapped(letters) + Pads(n);
    SwapBack(letters);
    assert Replace(Replace(s, '-', '+'), '_', '/') == letters + Pads(n);
    PadsAreRepadding(letters, n);
  }

  lemma PadsAreRepadding(letters: string, n: nat)
    requires |letters| % 4 == if n % 3 == 0 then 0 else n % 3 + 1
    ensures Repadded(letters + Pads(n)) == Repadded(letters)
  {
    if n % 3 == 0 {
      assert letters + "" == letters;
    } else if n % 3 == 1 {
      assert Repadded(letters + "==") == letters + "==";
    } else {
      assert Repadded(letters + "=") == letters + "=";
    }
  }

  // ─── White space in between ──────────────────────────────────────

  lemma {:induction false} NoWhiteReplaced(s: string, a: char, b: char)
    requires !IsWhite(a) && !IsWhite(b)
    ensures NoWhite(Replace(s, a, b)) == Replace(NoWhite(s), a, b)
    decreases |s|
  {
    if |s| > 0 {
      var n := |s| - 1;
      NoWhiteReplaced(s[..n], a, b);
      assert Replace(s, a, b)[..n] == Replace(s[..n], a, b);
    }
  }

  lemma {:induction false} EqualsSignFails(s: string)
    requires '=' in s
    ensures Values(s).None?
  {
    if s[0] != '=' {
      assert s == [s[0]] + s[1..];
      EqualsSignFails(s[1..]);
    }
  }

  /** n characters, all but the letters being white space: that, or all of them, is a multiple of four. */
  predicate Fits(letters: nat, n: nat) {
    letters % 4 == n % 4 || n % 4 == 0
  }

  /** Letters followed by the padding for n characters: read exactly when n and the number of letters agree modulo 4, or
      no padding is added. */
  lemma PaddedFor(letters: string, n: nat)
    requires Alphabetic(letters) && |letters| % 4 != 1
    ensures if Fits(|letters|, n) then Unpad(letters + PadFor(n)) == letters
            else '=' in Unpad(letters + PadFor(n))
  {
    assert |letters| > 0 ==> Value(letters[|letters| - 1]).Some?;
    var s := letters + PadFor(n);
    if n % 4 == 0 {
      assert s == letters;
    } else if |letters| % 4 == n % 4 {
      UnpadRepadded(letters);
    } else {
      assert Unpad(s) == s && s[|s| - 1] == '=';
    }
  }

  lemma SwapBackWhite(s: string, letters: string)
    requires Alphabetic(letters) && NoWhite(s) == Swapped(letters)
    ensures NoWhite(Replace(Replace(s, '-', '+'), '_', '/')) == letters
  {
    NoWhiteReplaced(s, '-', '+');
    NoWhiteReplaced(Replace(s, '-', '+'), '_', '/');
    SwapBack(letters);
  }

  lemma AtobFails(s: string)
    requires '=' in Unpad(NoWhite(s))
    ensures Atob(s).None?
  {
    EqualsSignFails(Unpad(NoWhite(s)));
  }

  lemma PaddingIsClean(n: nat)
    ensures Clean(PadFor(n))
  {
  }

  lemma RepaddedWhite(t: string, letters: string)
    requires NoWhite(t) == letters
    ensures NoWhite(Repadded(t)) == letters + PadFor(|t|)
  {
    PaddingIsClean(|t|);
    CleanStays(t, PadFor(|t|));
  }

  lemma AtobWhite(bytes: seq<byte>, t: string)
    requires NoWhite(t) == Letters(bytes)
    ensures Atob(Repadded(t)) == if Fits(|Letters(bytes)|, |t|) then Some(bytes) else None
  {
    var letters := Letters(bytes);
    LettersAlphabetic(Sextets(bytes));
    SextetsLength(bytes);
    RepaddedWhite(t, letters);
    PaddedFor(letters, |t|);
    if Fits(|letters|, |t|) {
      AtobOfLetters(bytes, Repadded(t));
    } else {
      AtobFails(Repadded(t));
    }
  }

  /** An encoded string with white space strewn in: it decodes to the bytes exactly when the white space, or the whole
      string, comes to a multiple of four characters, and fails otherwise; the loop counts white space that atob skips. */
  lemma WhiteSpaceExactly(bytes: seq<byte>, s: string)
    requires NoWhite(s) == Encoded(bytes)
    ensures Decoded(s) == if Fits(|Encoded(bytes)|, |s|) then Some(bytes) else None
  {
    EncodedIsUrlSafe(bytes);
    LettersAlphabetic(Sextets(bytes));
    SwapBackWhite(s, Letters(bytes));
    AtobWhite(bytes, Replace(Replace(s, '-', '+'), '_', '/'));
  }

  // ─── The alphabet and the groups ─────────────────────────────────

  /** RFC 4648, table 1. */
  function Table(s: sextet): char {
    if s < 26 then "ABCDEFGHIJKLMNOPQRSTUVWXYZ"[s]
    else if s < 52 then "abcdefghijklmnopqrstuvwxyz"[s - 26]
    else "0123456789+/"[s - 52]
  }

  /** The letters are those of the table; no other character has a value. */
  lemma AlphabetExactly(s: sextet, c: char)
    ensures Letter(s) == Table(s) && Value(Table(s)) == Some(s)
    ensures Value(c).Some? ==> Table(Value(c).value) == c
  {
    LetterIsTable(s);
    LetterValue(s);
    if Value(c).Some? {
      LetterIsTable(Value(c).value);
    }
  }

  lemma LetterIsTable(s: sextet)
    ensures Letter(s) == Table(s)
  {
  }

  /** Three bytes and four sextets are the same 24 bits, a rest of two or one is filled up with zeros. */
  lemma GroupsExactly(a: byte, b: byte, c: byte, rest: seq<byte>)
    ensures var s := Sextets([a, b, c] + rest);
            && |s| == 4 + |Sextets(rest)| && s[4..] == Sextets(rest)
            && NumberOf4(s[0], s[1], s[2], s[3]) == NumberOf3(a, b, c)
    ensures var s := Sextets([a, b]); |s| == 3 && NumberOf4(s[0], s[1], s[2], 0) == NumberOf3(a, b, 0)
    ensures var s := Sextets([a]); |s| == 2 && NumberOf4(s[0], s[1], 0, 0) == NumberOf3(a, 0, 0)
    ensures Sextets([]) == []
  {
    assert ([a, b, c] + rest)[3..] == rest;
    assert Quad(a, b, c)[0] == a / 4;
  }

  function NumberOf4(s0: nat, s1: nat, s2: nat, s3: nat): nat {
    ((s0 * 64 + s1) * 64 + s2) * 64 + s3
  }

  function NumberOf3(a: nat, b: nat, c: nat): nat {
    (a * 256 + b) * 256 + c
  }

  /** An encoded string is the letters of the sextets, '-' and '_' in place of '+' and '/', and no padding. */
  lemma EncodedLetters(bytes: seq<byte>, i: nat)
    requires i < |Sextets(bytes)|
    ensures |Encoded(bytes)| == |Sextets(bytes)|
    ensures var v := Sextets(bytes)[i];
            Encoded(bytes)[i] == if v == 62 then '-' else if v == 63 then '_' else Table(v)
  {
    EncodedIsUrlSafe(bytes);
    AlphabetExactly(Sextets(bytes)[i], 'A');
    var l := Letters(bytes)[i];
    assert l == Letter(Sextets(bytes)[i]);
    assert Swapped(Letters(bytes))[i] == if l == '+' then '-' else if l == '/' then '_' else l;
    LetterCases(Sextets(bytes)[i]);
  }

  lemma LetterCases(s: sextet)
    ensures Letter(s) == '+' <==> s == 62
    ensures Letter(s) == '/' <==> s == 63
  {
  }

  lemma {:induction false} ValuesExactly(s: string)
    ensures Values(s).Some? <==> Alphabetic(s)
    ensures Values(s).Some? ==>
              |Values(s).value| == |s| && forall i :: 0 <= i < |s| ==> Value(s[i]) == Some(Values(s).value[i])
    decreases |s|
  {
    if |s| > 0 {
      ValuesExactly(s[1..]);
      assert s == [s[0]] + s[1..];
      assert forall i :: 1 <= i < |s| ==> s[i] == s[1..][i - 1];
    }
  }

  /** atob fails exactly when, white space and padding gone, a character is outside the alphabet or one is left over. */
  lemma AtobFailsExactly(s: string)
    ensures Atob(s).None? <==> |Unpad(NoWhite(s))| % 4 == 1 || !Alphabetic(Unpad(NoWhite(s)))
  {
    ValuesExactly(Unpad(NoWhite(s)));
  }

  /** What atob makes of the values: 24 bits at a time, of a rest the spare bits are dropped. */
  lemma PackedExactly(s0: sextet, s1: sextet, s2: sextet, s3: sextet, rest: seq<sextet>)
    requires |rest| % 4 != 1
    ensures var p := Packed([s0, s1, s2, s3] + rest);
            && |p| == 3 + |Packed(rest)| && p[3..] == Packed(rest) && NumberOf3(p[0], p[1], p[2]) == NumberOf4(s0, s1, s2, s3)
    ensures var p := Packed([s0, s1, s2]); |p| == 2 && NumberOf3(0, p[0], p[1]) == NumberOf4(0, s0, s1, s2) / 4
    ensures var p := Packed([s0, s1]); |p| == 1 && p[0] == (s0 * 64 + s1) / 16
    ensures Packed([]) == []
  {
    PackedFour(s0, s1, s2, s3, rest);
  }
}
