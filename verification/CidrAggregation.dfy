/** The aggregation loop of DownloadAntiFilter in gui/app.go. */
module CidrAggregation {
  import opened Bytes

  // ─── Strings ─────────────────────────────────────────────────────

  /** Unicode white space. */
  predicate IsSpace(c: char) {
    || c in {' ', '\t', '\n', '\r', '\U{B}', '\U{C}', '\U{85}', '\U{A0}', '\U{1680}', '\U{2028}', '\U{2029}', '\U{202F}', '\U{205F}', '\U{3000}'}
    || '\U{2000}' <= c <= '\U{200A}'
  }

  function TrimLeft(s: string): string {
    if |s| > 0 && IsSpace(s[0]) then TrimLeft(s[1..]) else s
  }

  function TrimRight(s: string): string {
    if |s| > 0 && IsSpace(s[|s| - 1]) then TrimRight(s[..|s| - 1]) else s
  }

  function TrimSpace(s: string): string {
    TrimRight(TrimLeft(s))
  }

  predicate HasSuffix24(s: string) {
    |s| >= 3 && s[|s| - 3..] == "/24"
  }

  /** The first dot, or the length. */
  function Dot(s: string): (i: nat)
    ensures i <= |s|
    ensures i < |s| ==> s[i] == '.'
    ensures '.' !in s[..i]
  {
    if |s| == 0 || s[0] == '.' then 0 else 1 + Dot(s[1..])
  }

  /** What the first two parts of SplitN(base, ".", 3) are, when there are two. */
  function TwoParts(base: string): Option<(string, string)> {
    var i := Dot(base);
    if i == |base| then None
    else
      var rest := base[i + 1..];
      Some((base[..i], rest[..Dot(rest)]))
  }

  /** strings.Split(s, " "). */
  function Split(s: string): (pieces: seq<string>)
    ensures |pieces| > 0
    decreases |s|
  {
    var i := Blank(s);
    if i == |s| then [s] else [s[..i]] + Split(s[i + 1..])
  }

  /** The first space, or the length. */
  function Blank(s: string): (i: nat)
    ensures i <= |s|
    ensures i < |s| ==> s[i] == ' '
    ensures ' ' !in s[..i]
  {
    if |s| == 0 || s[0] == ' ' then 0 else 1 + Blank(s[1..])
  }

  /** The downloaded text in the pieces the loop goes over. */
  function Lines(data: string): seq<string> {
    Split(TrimSpace(data))
  }

  // ─── The loop ────────────────────────────────────────────────────

  /** What a trimmed line contributes: itself, or for a /24 the /16 named by its first two octets; nothing for a /24
      without a dot. */
  function Contribution(cidr: string): Option<string> {
    if HasSuffix24(cidr) then
      match TwoParts(cidr[..|cidr| - 3])
      case None => None
      case Some((a, b)) => Some(a + "." + b + ".0.0/16")
    else Some(cidr)
  }

  function Target(line: string): Option<string> {
    Contribution(TrimSpace(line))
  }

  function TargetList(line: string): seq<string> {
    match Target(line)
    case None => []
    case Some(t) => [t]
  }

  function Targets(lines: seq<string>): seq<string> {
    if |lines| == 0 then [] else Targets(lines[..|lines| - 1]) + TargetList(lines[|lines| - 1])
  }

  /** Every element at its first occurrence, later ones dropped. */
  function Dedup(ts: seq<string>): seq<string> {
    if |ts| == 0 then []
    else
      var before := Dedup(ts[..|ts| - 1]);
      if ts[|ts| - 1] in ts[..|ts| - 1] then before else before + [ts[|ts| - 1]]
  }

  lemma DedupLast(ts: seq<string>, t: string)
    ensures Dedup(ts + [t]) == if t in ts then Dedup(ts) else Dedup(ts) + [t]
  {
    assert (ts + [t])[..|ts|] == ts;
  }

  /** What becomes of the downloaded text. */
  function Outputs(data: string): seq<string> {
    Dedup(Targets(Lines(data)))
  }

  lemma TargetsNext(lines: seq<string>, i: nat)
    requires i < |lines|
    ensures Targets(lines[..i + 1]) == Targets(lines[..i]) + TargetList(lines[i])
  {
    assert lines[..i + 1][..i] == lines[..i];
  }

  ghost predicate Noted(unique: map<string, bool>, ts: seq<string>) {
    forall t :: t in unique <==> t in ts
  }

  /** What both branches do with a CIDR: append it unless it was seen. */
  method AddOnce(t: string, unique: map<string, bool>, cidrs: seq<string>, ghost before: seq<string>)
    returns (unique': map<string, bool>, cidrs': seq<string>)
    requires cidrs == Dedup(before) && Noted(unique, before)
    ensures cidrs' == Dedup(before + [t]) && Noted(unique', before + [t])
  {
    DedupLast(before, t);
    unique', cidrs' := unique, cidrs;
    if t !in unique {
      unique' := unique[t := true];
      cidrs' := cidrs + [t];
    }
  }

  /** One turn of the loop. */
  method AddLine(line: string, unique: map<string, bool>, cidrs: seq<string>, ghost before: seq<string>)
    returns (unique': map<string, bool>, cidrs': seq<string>)
    requires cidrs == Dedup(before) && Noted(unique, before)
    ensures cidrs' == Dedup(before + TargetList(line)) && Noted(unique', before + TargetList(line))
  {
    unique', cidrs' := unique, cidrs;
    var cidr := TrimSpace(line);
    if HasSuffix24(cidr) {
      var base := cidr[..|cidr| - 3];
      var parts := TwoParts(base);
      if parts.Some? {
        var agg := parts.value.0 + "." + parts.value.1 + ".0.0/16";
        unique', cidrs' := AddOnce(agg, unique, cidrs, before);
      } else {
        assert before + TargetList(line) == before;
      }
    } else {
      unique', cidrs' := AddOnce(cidr, unique, cidrs, before);
    }
  }

  method Aggregate(data: string) returns (cidrs: seq<string>)
    ensures cidrs == Outputs(data)
  {
    var lines := Lines(data);
    var unique: map<string, bool> := map[];
    cidrs := [];
    for i := 0 to |lines|
      invariant cidrs == Dedup(Targets(lines[..i])) && Noted(unique, Targets(lines[..i]))
    {
      TargetsNext(lines, i);
      unique, cidrs := AddLine(lines[i], unique, cidrs, Targets(lines[..i]));
    }
    assert lines[..|lines|] == lines;
  }

  // ─── Order and duplicates ────────────────────────────────────────

  function FirstAt(ts: seq<string>, t: string): (i: nat)
    ensures i <= |ts|
    ensures i < |ts| ==> ts[i] == t
    ensures t in ts ==> i < |ts|
    ensures forall j :: 0 <= j < i ==> ts[j] != t
  {
    if |ts| == 0 || ts[0] == t then 0 else 1 + FirstAt(ts[1..], t)
  }

  lemma {:induction false} FirstAtAppend(ts: seq<string>, u: string, t: string)
    ensures t in ts ==> FirstAt(ts + [u], t) == FirstAt(ts, t) < |ts|
    ensures t !in ts && t == u ==> FirstAt(ts + [u], t) == |ts|
  {
    if |ts| > 0 {
      FirstAtAppend(ts[1..], u, t);
      assert (ts + [u])[1..] == ts[1..] + [u];
      assert ts == [ts[0]] + ts[1..];
    }
  }

  ghost predicate InFirstOrder(ts: seq<string>, d: seq<string>) {
    forall i, j :: 0 <= i < j < |d| ==> FirstAt(ts, d[i]) < FirstAt(ts, d[j])
  }

  lemma FirstOrderStep(ts: seq<string>, d: seq<string>)
    requires |ts| > 0 && InFirstOrder(ts[..|ts| - 1], d) && forall i :: 0 <= i < |d| ==> d[i] in ts[..|ts| - 1]
    ensures InFirstOrder(ts, d)
    ensures ts[|ts| - 1] !in ts[..|ts| - 1] ==> InFirstOrder(ts, d + [ts[|ts| - 1]])
  {
    var n := |ts| - 1;
    assert ts == ts[..n] + [ts[n]];
    forall i | 0 <= i < |d| ensures FirstAt(ts, d[i]) == FirstAt(ts[..n], d[i]) < n {
      FirstAtAppend(ts[..n], ts[n], d[i]);
    }
    FirstAtAppend(ts[..n], ts[n], ts[n]);
  }

  lemma {:induction false} DedupMembers(ts: seq<string>)
    ensures forall t :: t in Dedup(ts) <==> t in ts
    decreases |ts|
  {
    if |ts| > 0 {
      var n := |ts| - 1;
      DedupMembers(ts[..n]);
      assert ts == ts[..n] + [ts[n]];
    }
  }

  lemma DedupOrderStep(ts: seq<string>)
    requires |ts| > 0 && InFirstOrder(ts[..|ts| - 1], Dedup(ts[..|ts| - 1]))
    ensures InFirstOrder(ts, Dedup(ts))
  {
    var before := Dedup(ts[..|ts| - 1]);
    DedupMembers(ts[..|ts| - 1]);
    FirstOrderStep(ts, before);
  }

  lemma {:induction false} DedupInOrder(ts: seq<string>)
    ensures InFirstOrder(ts, Dedup(ts))
    decreases |ts|
  {
    if |ts| > 0 {
      DedupInOrder(ts[..|ts| - 1]);
      DedupOrderStep(ts);
    }
  }

  /** The outputs are the targets, without duplicates, in the order of their first occurrence. */
  lemma DedupIsFirstOccurrences(ts: seq<string>)
    ensures forall t :: t in Dedup(ts) <==> t in ts
    ensures InFirstOrder(ts, Dedup(ts))
  {
    DedupMembers(ts);
    DedupInOrder(ts);
  }

  // ─── Addresses ───────────────────────────────────────────────────

  predicate IsNumeral(s: string) {
    |s| > 0 && forall i :: 0 <= i < |s| ==> '0' <= s[i] <= '9'
  }

  function NumberOf(s: string): nat
    requires IsNumeral(s)
  {
    var d := s[|s| - 1] as int - '0' as int;
    if |s| == 1 then d else 10 * NumberOf(s[..|s| - 1]) + d
  }

  /** A CIDR in its parts. */
  datatype Cidr = Cidr(a: string, b: string, c: string, d: string, len: string)

  function Text(x: Cidr): string {
    x.a + "." + x.b + "." + x.c + "." + x.d + "/" + x.len
  }

  predicate WellFormed(x: Cidr) {
    && IsNumeral(x.a) && IsNumeral(x.b) && IsNumeral(x.c) && IsNumeral(x.d) && IsNumeral(x.len)
    && NumberOf(x.a) < 256 && NumberOf(x.b) < 256 && NumberOf(x.c) < 256 && NumberOf(x.d) < 256 && NumberOf(x.len) <= 32
    && |x.len| <= 2
  }

  function Network(x: Cidr): nat
    requires WellFormed(x)
  {
    ((NumberOf(x.a) * 256 + NumberOf(x.b)) * 256 + NumberOf(x.c)) * 256 + NumberOf(x.d)
  }

  /** A 32-bit address agrees with the network in its first `len` bits. */
  predicate Covers(x: Cidr, address: nat)
    requires WellFormed(x)
  {
    var size := Pow2(32 - NumberOf(x.len));
    address / size == Network(x) / size
  }

  /** An address is covered by a text that spells a well-formed CIDR covering it. */
  ghost predicate CoveredBy(text: string, address: nat) {
    exists x :: WellFormed(x) && Text(x) == text && Covers(x, address)
  }

  function Widened(x: Cidr): Cidr {
    Cidr(x.a, x.b, "0", "0", "16")
  }

  lemma PowersHere()
    ensures Pow2(8) == 0x100 && Pow2(16) == 0x1_0000
  {
    PowersUsed();
  }

  /** The /16 covers what the /24 does. */
  lemma WidenedCovers(x: Cidr, address: nat)
    requires WellFormed(x) && x.len == "24" && Covers(x, address)
    ensures WellFormed(Widened(x)) && Covers(Widened(x), address)
  {
    Sixteen();
    PowersHere();
    var a, b, c, d := NumberOf(x.a), NumberOf(x.b), NumberOf(x.c), NumberOf(x.d);
    SameSlash16(a, b, c, d, address);
    assert IsNumeral("0") && NumberOf("0") == 0;
  }

  lemma SameSlash16(a: nat, b: nat, c: nat, d: nat, address: nat)
    requires a < 256 && b < 256 && c < 256 && d < 256
    requires address / 0x100 == (((a * 256 + b) * 256 + c) * 256 + d) / 0x100
    ensures address / 0x1_0000 == (((a * 256 + b) * 256 + 0) * 256 + 0) / 0x1_0000
  {
    assert (((a * 256 + b) * 256 + c) * 256 + d) / 0x100 == (a * 256 + b) * 256 + c;
    assert address / 0x1_0000 == address / 0x100 / 0x100;
  }

  lemma Sixteen()
    ensures IsNumeral("16") && NumberOf("16") == 16
    ensures IsNumeral("24") && NumberOf("24") == 24
  {
    assert "16"[..1] == "1" && "24"[..1] == "2";
    assert NumberOf("1") == 1 && NumberOf("2") == 2;
  }

  lemma NumeralHas(s: string)
    requires IsNumeral(s)
    ensures '.' !in s
  {
  }

  lemma {:induction false} DotAfter(s: string, rest: string)
    requires '.' !in s
    ensures Dot(s + "." + rest) == |s|
  {
    var t := s + "." + rest;
    if |s| > 0 {
      DotAfter(s[1..], rest);
      assert t[1..] == s[1..] + "." + rest;
      assert t[0] == s[0] && s[0] in s;
    }
  }

  /** The suffix test recognises exactly the prefix length 24. */
  lemma SuffixIsLength(x: Cidr)
    requires WellFormed(x)
    ensures HasSuffix24(Text(x)) <==> x.len == "24"
  {
    var t := Text(x);
    var head := x.a + "." + x.b + "." + x.c + "." + x.d;
    assert t == head + "/" + x.len;
    assert t[|head|] == '/';
    assert |t| >= 4;
    assert t[|t| - 3..][1] == t[|t| - 2];
    if |x.len| == 2 {
      assert t[|t| - 3..] == "/" + x.len;
      assert x.len == ("/" + x.len)[1..] && "24" == "/24"[1..];
    }
  }

  lemma PartsOf(a: string, b: string, tail: string)
    requires '.' !in a && '.' !in b
    ensures TwoParts(a + "." + (b + "." + tail)) == Some((a, b))
  {
    var base := a + "." + (b + "." + tail);
    DotAfter(a, b + "." + tail);
    assert base[..|a|] == a;
    assert base[|a| + 1..] == b + "." + tail;
    DotAfter(b, tail);
    assert (b + "." + tail)[..|b|] == b;
  }

  lemma ContributionOfText(x: Cidr)
    requires WellFormed(x)
    ensures Contribution(Text(x)) == Some(if x.len == "24" then Text(Widened(x)) else Text(x))
  {
    SuffixIsLength(x);
    if x.len == "24" {
      BaseOf24(x);
      NumeralHas(x.a);
      NumeralHas(x.b);
      PartsOf(x.a, x.b, x.c + "." + x.d);
      WidenedText(x);
    }
  }

  lemma BaseOf24(x: Cidr)
    requires x.len == "24"
    ensures |Text(x)| >= 3 && Text(x)[..|Text(x)| - 3] == x.a + "." + (x.b + "." + (x.c + "." + x.d))
  {
    assert Text(x) == (x.a + "." + (x.b + "." + (x.c + "." + x.d))) + "/24";
  }

  lemma WidenedText(x: Cidr)
    ensures Text(Widened(x)) == x.a + "." + x.b + ".0.0/16"
  {
  }

  lemma {:induction false} TargetIn(lines: seq<string>, k: nat)
    requires k < |lines| && Target(lines[k]).Some?
    ensures Target(lines[k]).value in Targets(lines)
    decreases |lines|
  {
    if k < |lines| - 1 {
      TargetIn(lines[..|lines| - 1], k);
    }
  }

  lemma {:induction false} TargetFrom(lines: seq<string>, t: string)
    requires t in Targets(lines)
    ensures exists k :: 0 <= k < |lines| && Target(lines[k]) == Some(t)
    decreases |lines|
  {
    var n := |lines| - 1;
    if Target(lines[n]) != Some(t) {
      TargetFrom(lines[..n], t);
      var k :| 0 <= k < n && Target(lines[..n][k]) == Some(t);
      assert Target(lines[k]) == Some(t);
    }
  }

  lemma ContributionCovers(x: Cidr, address: nat)
    requires WellFormed(x) && Covers(x, address)
    ensures Contribution(Text(x)).Some? && CoveredBy(Contribution(Text(x)).value, address)
  {
    ContributionOfText(x);
    if x.len == "24" {
      WidenedCovers(x, address);
    }
  }

  /** No address covered by a well-formed piece is lost. */
  lemma PieceCovered(lines: seq<string>, k: nat, x: Cidr, address: nat)
    requires k < |lines| && WellFormed(x) && TrimSpace(lines[k]) == Text(x) && Covers(x, address)
    ensures exists out :: out in Dedup(Targets(lines)) && CoveredBy(out, address)
  {
    ContributionCovers(x, address);
    TargetIn(lines, k);
    DedupMembers(Targets(lines));
    assert Target(lines[k]).value in Dedup(Targets(lines));
  }

  /** out is what the well-formed CIDRs spelled by a piece should give: the CIDR as it stands, or the /16 around a /24. */
  ghost predicate Gives(piece: string, out: string) {
    forall x :: WellFormed(x) && Text(x) == TrimSpace(piece) ==> out == if x.len == "24" then Text(Widened(x)) else Text(x)
  }

  /** Where an output comes from, whatever the other pieces are: one piece, as it stands unless it ends in /24, and the
      right CIDR if the piece is one. */
  lemma OutputOrigin(lines: seq<string>, out: string)
    requires out in Dedup(Targets(lines))
    ensures exists k :: 0 <= k < |lines| && Gives(lines[k], out)
                        && (!HasSuffix24(TrimSpace(lines[k])) ==> out == TrimSpace(lines[k]))
  {
    DedupMembers(Targets(lines));
    TargetFrom(lines, out);
    var k :| 0 <= k < |lines| && Target(lines[k]) == Some(out);
    forall x | WellFormed(x) && Text(x) == TrimSpace(lines[k])
      ensures out == if x.len == "24" then Text(Widened(x)) else Text(x)
    {
      ContributionOfText(x);
    }
    assert Gives(lines[k], out);
  }

  // ─── Pieces of any form ──────────────────────────────────────────

  /** Of a piece that ends in /24 the first two dotted parts count, and without a dot it is dropped; any other stays. */
  lemma ContributionForms(a: string, b: string, tail: string, piece: string)
    requires '.' !in a && '.' !in b
    ensures Contribution(a + "/24") == None
    ensures Contribution(a + "." + b + "/24") == Some(a + "." + b + ".0.0/16")
    ensures Contribution(a + "." + (b + "." + tail) + "/24") == Some(a + "." + b + ".0.0/16")
    ensures |piece| < 3 || piece[|piece| - 3..] != "/24" ==> Contribution(piece) == Some(piece)
  {
    NoDot(a);
    BaseOfSlash(a);
    BaseOfSlash(a + "." + b);
    BaseOfSlash(a + "." + (b + "." + tail));
    TwoPartsOnly(a, b);
    PartsOf(a, b, tail);
  }

  lemma BaseOfSlash(base: string)
    ensures HasSuffix24(base + "/24") && (base + "/24")[..|base + "/24"| - 3] == base
  {
  }

  lemma {:induction false} NoDot(a: string)
    requires '.' !in a
    ensures Dot(a) == |a|
    decreases |a|
  {
    if |a| > 0 {
      assert a[0] in a && forall c :: c in a[1..] ==> c in a;
      NoDot(a[1..]);
    }
  }

  lemma TwoPartsOnly(a: string, b: string)
    requires '.' !in a && '.' !in b
    ensures TwoParts(a + "." + b) == Some((a, b))
  {
    DotAfter(a, b);
    NoDot(b);
    var base := a + "." + b;
    assert base[..|a|] == a && base[|a| + 1..] == b && b[..|b|] == b;
  }

  // ─── Splitting and trimming ──────────────────────────────────────

  function JoinedBySpaces(pieces: seq<string>): string
    requires |pieces| > 0
  {
    if |pieces| == 1 then pieces[0] else pieces[0] + " " + JoinedBySpaces(pieces[1..])
  }

  /** The pieces hold no space, and joined by spaces they are the text. */
  lemma {:induction false} SplitExactly(s: string)
    ensures JoinedBySpaces(Split(s)) == s
    ensures forall k :: 0 <= k < |Split(s)| ==> ' ' !in Split(s)[k]
    decreases |s|
  {
    var i := Blank(s);
    if i == |s| {
      assert s[..i] == s;
    } else {
      var rest := s[i + 1..];
      SplitExactly(rest);
      var pieces := [s[..i]] + Split(rest);
      assert pieces[1..] == Split(rest) && pieces[0] == s[..i];
      assert s == s[..i] + " " + rest;
      forall k | 0 <= k < |pieces| ensures ' ' !in pieces[k] {
        assert k > 0 ==> pieces[k] == Split(rest)[k - 1];
      }
    }
  }
}
