/** Which texts DownloadAntiFilter of gui/app.go aggregates without losing an address. */
module CidrText {
  import opened Bytes
  import opened CidrAggregation

  predicate AllSpace(s: string) {
    forall i :: 0 <= i < |s| ==> IsSpace(s[i])
  }

  /** Neither begins nor ends with white space. */
  predicate Bare(s: string) {
    |s| > 0 ==> !IsSpace(s[0]) && !IsSpace(s[|s| - 1])
  }

  /** The entries in order, with a separator between each two. */
  function Layout(entries: seq<string>, seps: seq<string>): string
    requires |entries| == |seps| + 1
    decreases |seps|
  {
    if |seps| == 0 then entries[0] else entries[0] + (seps[0] + Layout(entries[1..], seps[1..]))
  }

  /** What an entry looks like to the split and the trimming. */
  predicate Solid(entry: string) {
    entry != "" && Bare(entry) && ' ' !in entry
  }

  // ─── Trimming ────────────────────────────────────────────────────

  lemma {:induction false} TrimLeftOf(w: string, s: string)
    requires AllSpace(w) && (|s| > 0 ==> !IsSpace(s[0]))
    ensures TrimLeft(w + s) == s
    decreases |w|
  {
    if |w| == 0 {
      assert w + s == s;
    } else {
      assert (w + s)[1..] == w[1..] + s;
      TrimLeftOf(w[1..], s);
    }
  }

  lemma {:induction false} TrimRightOf(s: string, w: string)
    requires AllSpace(w) && (|s| > 0 ==> !IsSpace(s[|s| - 1]))
    ensures TrimRight(s + w) == s
    decreases |w|
  {
    if |w| == 0 {
      assert s + w == s;
    } else {
      assert (s + w)[..|s + w| - 1] == s + w[..|w| - 1];
      TrimRightOf(s, w[..|w| - 1]);
    }
  }

  lemma TrimOf(w1: string, core: string, w2: string)
    requires AllSpace(w1) && AllSpace(w2) && Bare(core)
    ensures TrimSpace(w1 + core + w2) == core
  {
    if core == "" {
      TrimLeftOf(w1 + w2, "");
      assert w1 + core + w2 == (w1 + w2) + "";
    } else {
      TrimLeftOf(w1, core + w2);
      assert w1 + core + w2 == w1 + (core + w2);
      TrimRightOf(core, w2);
    }
  }

  lemma LayoutIsBare(entries: seq<string>, seps: seq<string>)
    requires |entries| == |seps| + 1 && forall k :: 0 <= k < |entries| ==> Solid(entries[k])
    ensures Layout(entries, seps) != "" && Bare(Layout(entries, seps))
    decreases |seps|
  {
    if |seps| > 0 {
      LayoutIsBare(entries[1..], seps[1..]);
      BareEnds(entries[0], seps[0], Layout(entries[1..], seps[1..]));
    }
  }

  lemma BareEnds(a: string, w: string, b: string)
    requires a != "" && Bare(a) && b != "" && Bare(b)
    ensures Bare(a + (w + b))
  {
    var t := a + (w + b);
    assert t[0] == a[0] && t[|t| - 1] == b[|b| - 1];
  }

  lemma LinesOf(lead: string, entries: seq<string>, seps: seq<string>, trail: string)
    requires AllSpace(lead) && AllSpace(trail)
    requires |entries| == |seps| + 1 && forall k :: 0 <= k < |entries| ==> Solid(entries[k])
    ensures Lines(lead + Layout(entries, seps) + trail) == Split(Layout(entries, seps))
  {
    LayoutIsBare(entries, seps);
    TrimOf(lead, Layout(entries, seps), trail);
  }

  // ─── Splitting ───────────────────────────────────────────────────

  lemma {:induction false} BlankAfter(a: string, s: string)
    requires ' ' !in a
    ensures Blank(a + " " + s) == |a| && Blank(a) == |a|
    decreases |a|
  {
    if |a| > 0 {
      assert a[0] in a && forall c :: c in a[1..] ==> c in a;
      assert (a + " " + s)[1..] == a[1..] + " " + s;
      BlankAfter(a[1..], s);
    }
  }

  lemma SplitAfter(a: string, s: string)
    requires ' ' !in a
    ensures Split(a + " " + s) == [a] + Split(s)
    ensures Split(a) == [a]
  {
    BlankAfter(a, s);
    var t := a + " " + s;
    assert t[..|a|] == a && t[|a| + 1..] == s;
  }

  /** Cut at its first space. */
  lemma FirstBlank(w: string) returns (u: string, v: string)
    requires ' ' in w && AllSpace(w)
    ensures w == u + " " + v && ' ' !in u && AllSpace(u) && AllSpace(v)
  {
    var i := Blank(w);
    assert w[..|w|] == w;
    u, v := w[..i], w[i + 1..];
    assert w == u + [w[i]] + v;
  }

  // ─── Separators with a space keep every entry ────────────────────

  ghost predicate Spells(pieces: seq<string>, text: string) {
    exists j :: 0 <= j < |pieces| && TrimSpace(pieces[j]) == text
  }

  lemma SpellsLater(piece: string, pieces: seq<string>, text: string)
    requires Spells(pieces, text)
    ensures Spells([piece] + pieces, text)
  {
    var j :| 0 <= j < |pieces| && TrimSpace(pieces[j]) == text;
    assert ([piece] + pieces)[j + 1] == pieces[j];
  }

  lemma SpellsNow(w1: string, entry: string, w2: string, pieces: seq<string>)
    requires AllSpace(w1) && AllSpace(w2) && Bare(entry)
    ensures Spells([w1 + entry + w2] + pieces, entry)
  {
    TrimOf(w1, entry, w2);
    assert ([w1 + entry + w2] + pieces)[0] == w1 + entry + w2;
  }

  predicate Spaced(seps: seq<string>) {
    forall i :: 0 <= i < |seps| ==> ' ' in seps[i]
  }

  predicate Blanks(seps: seq<string>) {
    forall i :: 0 <= i < |seps| ==> AllSpace(seps[i])
  }

  lemma Regrouped(w: string, e: string, u: string, v: string, rest: string)
    ensures w + (e + ((u + " " + v) + rest)) == (w + e + u) + " " + (v + rest)
  {
  }

  lemma NoneIn(w: string, e: string, u: string)
    requires ' ' !in w && ' ' !in e && ' ' !in u
    ensures ' ' !in w + e + u
  {
  }

  /** An entry whose separator has a space is a piece of its own. */
  lemma PieceCut(w: string, e: string, u: string, v: string, rest: string)
    requires ' ' !in w && ' ' !in e && ' ' !in u
    ensures Split(w + (e + ((u + " " + v) + rest))) == [w + e + u] + Split(v + rest)
  {
    Regrouped(w, e, u, v, rest);
    NoneIn(w, e, u);
    SplitAfter(w + e + u, v + rest);
  }

  lemma LastPiece(w: string, e: string)
    requires AllSpace(w) && ' ' !in w && Solid(e)
    ensures Spells(Split(w + e), e)
  {
    NoneIn(w, e, "");
    assert w + e + "" == w + e;
    SplitAfter(w + e, "");
    SpellsNow(w, e, "", []);
    assert [w + e] + [] == [w + e];
  }

  lemma LeadingSplit(u: string, v: string, text: string)
    requires ' ' !in u
    ensures Split((u + " " + v) + text) == [u] + Split(v + text)
  {
    SplitAfter(u, v + text);
    assert (u + " " + v) + text == u + " " + (v + text);
  }

  lemma {:induction false} EntryFound(w: string, entries: seq<string>, seps: seq<string>, k: nat)
    requires AllSpace(w) && |entries| == |seps| + 1 && k < |entries| && Blanks(seps) && Spaced(seps)
    requires forall i :: 0 <= i < |entries| ==> Solid(entries[i])
    ensures Spells(Split(w + Layout(entries, seps)), entries[k])
    decreases |seps|, |w|
  {
    if ' ' in w {
      var u, v := FirstBlank(w);
      EntryFound(v, entries, seps, k);
      LeadingSplit(u, v, Layout(entries, seps));
      SpellsLater(u, Split(v + Layout(entries, seps)), entries[k]);
    } else if |seps| == 0 {
      LastPiece(w, entries[0]);
    } else {
      var u, v := FirstBlank(seps[0]);
      var rest := Layout(entries[1..], seps[1..]);
      PieceCut(w, entries[0], u, v, rest);
      if k == 0 {
        SpellsNow(w, entries[0], u, Split(v + rest));
      } else {
        EntryFound(v, entries[1..], seps[1..], k - 1);
        SpellsLater(w + entries[0] + u, Split(v + rest), entries[k]);
      }
    }
  }

  // ─── A separator without one swallows an entry ───────────────────

  /** What a piece holds between white space: nothing, or entries run together, the first beginning "1.2.". */
  predicate Run(core: string) {
    core == "" || (Opens(core) && Closes(core))
  }

  predicate Opens(s: string) {
    |s| >= 7 && s[..4] == "1.2."
  }

  predicate Closes(s: string) {
    |s| >= 7 && s[|s| - 3..] == "/24"
  }

  lemma RunIsBare(core: string)
    requires Run(core)
    ensures Bare(core)
  {
    if core != "" {
      assert core[0] == core[..4][0];
      assert core[|core| - 1] == core[|core| - 3..][2];
    }
  }

  ghost predicate AllRuns(pieces: seq<string>) {
    forall j :: 0 <= j < |pieces| ==> Run(TrimSpace(pieces[j]))
  }

  lemma RunGrows(core: string, w: string, entry: string)
    requires Opens(core) && Closes(entry)
    ensures Run(core + w + entry)
  {
    var c := core + w + entry;
    assert c[..4] == core[..4];
    assert c[|c| - 3..] == entry[|entry| - 3..];
  }

  /** An entry that does not open a run follows an entry with no space in between. */
  predicate Follows(entries: seq<string>, seps: seq<string>)
    requires |entries| == |seps| + 1
  {
    forall i :: 0 <= i < |seps| ==> Opens(entries[i + 1]) || ' ' !in seps[i]
  }

  predicate Closing(entries: seq<string>) {
    forall k :: 0 <= k < |entries| ==> Solid(entries[k]) && Closes(entries[k])
  }

  lemma Tails(entries: seq<string>, seps: seq<string>)
    requires |seps| > 0 && |entries| == |seps| + 1 && Closing(entries) && Blanks(seps) && Follows(entries, seps)
    ensures Closing(entries[1..]) && Blanks(seps[1..]) && Follows(entries[1..], seps[1..])
  {
    forall i | 0 <= i < |seps| - 1 ensures Opens(entries[1..][i + 1]) || ' ' !in seps[1..][i] {
      assert entries[1..][i + 1] == entries[i + 2] && seps[1..][i] == seps[i + 1];
    }
  }

  /** A piece that is still open. */
  ghost predicate IsOpen(piece: string, core: string) {
    ' ' !in piece && Run(core) && exists w1, w2 :: Around(piece, w1, core, w2)
  }

  predicate Around(piece: string, w1: string, core: string, w2: string) {
    AllSpace(w1) && AllSpace(w2) && piece == w1 + core + w2
  }

  lemma NothingOpen()
    ensures IsOpen("", "")
  {
    assert Around("", "", "", "");
  }

  lemma OpenTrims(piece: string, core: string)
    requires IsOpen(piece, core)
    ensures TrimSpace(piece) == core
  {
    var w1, w2 :| Around(piece, w1, core, w2);
    RunIsBare(core);
    TrimOf(w1, core, w2);
  }

  lemma OpenSpace(piece: string, core: string, c: char)
    requires IsOpen(piece, core) && IsSpace(c) && c != ' '
    ensures IsOpen(piece + [c], core)
  {
    var w1, w2 :| Around(piece, w1, core, w2);
    assert piece + [c] == w1 + core + (w2 + [c]);
    assert Around(piece + [c], w1, core, w2 + [c]);
  }

  /** One more entry opens a run or is swallowed by the open one. */
  lemma OpenEntry(piece: string, core: string, entry: string) returns (core': string)
    requires IsOpen(piece, core) && Solid(entry) && Closes(entry) && (Opens(entry) || core != "")
    ensures IsOpen(piece + entry, core') && core' != ""
  {
    var w1, w2 :| Around(piece, w1, core, w2);
    if core == "" {
      core' := entry;
      assert piece + entry == (w1 + w2) + core' + "";
      assert Around(piece + entry, w1 + w2, core', "");
    } else {
      core' := core + w2 + entry;
      RunGrows(core, w2, entry);
      assert piece + entry == w1 + core' + "";
      assert Around(piece + entry, w1, core', "");
    }
  }

  lemma RunsClose(piece: string, core: string, pieces: seq<string>)
    requires IsOpen(piece, core) && AllRuns(pieces)
    ensures AllRuns([piece] + pieces)
  {
    OpenTrims(piece, core);
    var all := [piece] + pieces;
    forall j | 0 <= j < |all| ensures Run(TrimSpace(all[j])) {
      assert j > 0 ==> all[j] == pieces[j - 1];
    }
  }

  lemma RunsEnd(piece: string, core: string)
    requires IsOpen(piece, core)
    ensures AllRuns(Split(piece))
  {
    SplitAfter(piece, "");
    RunsClose(piece, core, []);
    assert [piece] + [] == [piece];
  }

  lemma Joined(a: string, b: string, c: string)
    ensures a + (b + c) == (a + b) + c
  {
  }

  /** Reading on from a piece that is still open: sep, then the entries. */
  lemma {:induction false} RunsOnly(piece: string, core: string, sep: string, entries: seq<string>, seps: seq<string>)
    requires IsOpen(piece, core)
    requires AllSpace(sep) && |entries| == |seps| + 1 && Closing(entries) && Blanks(seps) && Follows(entries, seps)
    requires Opens(entries[0]) || (core != "" && ' ' !in sep)
    ensures AllRuns(Split(piece + (sep + Layout(entries, seps))))
    decreases |seps|, |sep|
  {
    var text := Layout(entries, seps);
    if sep == "" {
      assert sep + text == text;
      var core' := OpenEntry(piece, core, entries[0]);
      if |seps| == 0 {
        RunsEnd(piece + entries[0], core');
      } else {
        Tails(entries, seps);
        RunsOnly(piece + entries[0], core', seps[0], entries[1..], seps[1..]);
        Joined(piece, entries[0], seps[0] + Layout(entries[1..], seps[1..]));
      }
    } else {
      var rest := sep[1..] + text;
      assert sep + text == [sep[0]] + rest;
      Joined(piece, [sep[0]], rest);
      if sep[0] == ' ' {
        NothingOpen();
        RunsOnly("", "", sep[1..], entries, seps);
        assert "" + rest == rest;
        SplitAfter(piece, rest);
        RunsClose(piece, core, Split(rest));
      } else {
        OpenSpace(piece, core, sep[0]);
        RunsOnly(piece + [sep[0]], core, sep[1..], entries, seps);
      }
    }
  }

  // ─── Exactly which separators are safe ───────────────────────────

  function Texts(entries: seq<Cidr>): seq<string> {
    seq(|entries|, k requires 0 <= k < |entries| => Text(entries[k]))
  }

  ghost predicate AllWellFormed(entries: seq<Cidr>) {
    forall k :: 0 <= k < |entries| ==> WellFormed(entries[k])
  }

  /** Some output of the text covers the address. */
  ghost predicate Kept(data: string, address: nat) {
    exists out :: out in Outputs(data) && CoveredBy(out, address)
  }

  ghost predicate LosesNothing(data: string, entries: seq<Cidr>)
    requires AllWellFormed(entries)
  {
    forall k, address :: 0 <= k < |entries| && Covers(entries[k], address) ==> Kept(data, address)
  }

  /** With these separators no entries lose an address. */
  ghost predicate Safe(lead: string, seps: seq<string>, trail: string) {
    forall entries :: |entries| == |seps| + 1 && AllWellFormed(entries) ==>
      LosesNothing(lead + Layout(Texts(entries), seps) + trail, entries)
  }

  lemma DigitsOnly(s: string)
    requires IsNumeral(s)
    ensures ' ' !in s && Bare(s)
  {
  }

  lemma TextIsSolid(x: Cidr)
    requires WellFormed(x)
    ensures Solid(Text(x))
  {
    DigitsOnly(x.a);
    DigitsOnly(x.b);
    DigitsOnly(x.c);
    DigitsOnly(x.d);
    DigitsOnly(x.len);
    assert Text(x)[0] == x.a[0];
    assert Text(x)[|Text(x)| - 1] == x.len[|x.len| - 1];
  }

  lemma TextsAreSolid(entries: seq<Cidr>)
    requires AllWellFormed(entries)
    ensures forall k :: 0 <= k < |entries| ==> Solid(Texts(entries)[k])
  {
    forall k | 0 <= k < |entries| ensures Solid(Texts(entries)[k]) {
      TextIsSolid(entries[k]);
    }
  }

  /** Separators that all have a space lose no address of any entry. */
  lemma SpacedIsSafe(lead: string, seps: seq<string>, trail: string, entries: seq<Cidr>)
    requires AllSpace(lead) && AllSpace(trail) && Blanks(seps) && Spaced(seps)
    requires |entries| == |seps| + 1 && AllWellFormed(entries)
    ensures LosesNothing(lead + Layout(Texts(entries), seps) + trail, entries)
  {
    var data, texts := lead + Layout(Texts(entries), seps) + trail, Texts(entries);
    TextsAreSolid(entries);
    LinesOf(lead, texts, seps, trail);
    forall k, address | 0 <= k < |entries| && Covers(entries[k], address) ensures Kept(data, address) {
      EntryFound("", texts, seps, k);
      assert "" + Layout(texts, seps) == Layout(texts, seps);
      var j :| 0 <= j < |Lines(data)| && TrimSpace(Lines(data)[j]) == texts[k];
      PieceCovered(Lines(data), j, entries[k], address);
    }
  }

  const OPENING := Cidr("1", "2", "3", "0", "24")
  const SWALLOWED := Cidr("9", "9", "9", "0", "24")
  const SWALLOWED_ADDRESS := 0x0909_0900

  lemma Digits()
    ensures NumberOf("0") == 0 && NumberOf("1") == 1 && NumberOf("2") == 2 && NumberOf("3") == 3 && NumberOf("9") == 9
  {
  }

  lemma SampleTexts()
    ensures Opens(Text(OPENING)) && Closes(Text(OPENING)) && Closes(Text(SWALLOWED))
  {
    assert Text(OPENING) == "1.2.3.0/24" && Text(SWALLOWED) == "9.9.9.0/24";
  }

  lemma SampleEntries()
    ensures WellFormed(OPENING) && WellFormed(SWALLOWED) && Covers(SWALLOWED, SWALLOWED_ADDRESS)
    ensures Opens(Text(OPENING)) && Closes(Text(OPENING)) && Closes(Text(SWALLOWED))
  {
    Sixteen();
    PowersHere();
    Digits();
    SampleTexts();
  }

  /** What the loop makes of a run. */
  lemma RunContributes(core: string)
    requires Run(core)
    ensures Contribution(core) == Some(if core == "" then "" else "1.2.0.0/16")
  {
    if core != "" {
      var base := core[..|core| - 3];
      var tail := base[4..];
      assert base[..4] == core[..4];
      assert base == "1" + "." + ("2" + "." + tail);
      PartsOf("1", "2", tail);
      assert HasSuffix24(core);
      assert "1" + "." + "2" + ".0.0/16" == "1.2.0.0/16";
    }
  }

  lemma EndsIn16(x: Cidr)
    requires WellFormed(x) && Text(x) == "1.2.0.0/16"
    ensures NumberOf(x.len) == 16
  {
    var t := Text(x);
    var head := x.a + "." + x.b + "." + x.c + "." + x.d;
    assert t == head + "/" + x.len && t[|head|] == '/';
    assert t[|t| - 2] == '1' && t[|t| - 3..] == "/16";
    if |x.len| == 2 {
      assert x.len == t[|t| - 2..] == "16";
      Sixteen();
    }
  }

  lemma SameParts(a: string, b: string, tail: string, c: string, d: string, other: string)
    requires '.' !in a && '.' !in b && '.' !in c && '.' !in d
    requires a + "." + (b + "." + tail) == c + "." + (d + "." + other)
    ensures a == c && b == d
  {
    PartsOf(a, b, tail);
    PartsOf(c, d, other);
  }

  lemma TextInParts(a: string, b: string, c: string, d: string, len: string)
    ensures Text(Cidr(a, b, c, d, len)) == a + "." + (b + "." + (c + "." + d + "/" + len))
  {
  }

  lemma StartsWith12(x: Cidr)
    requires WellFormed(x) && Text(x) == "1.2.0.0/16"
    ensures x.a == "1" && x.b == "2"
  {
    NumeralHas(x.a);
    NumeralHas(x.b);
    TextInParts(x.a, x.b, x.c, x.d, x.len);
    assert "1.2.0.0/16" == "1" + "." + ("2" + "." + "0.0/16");
    SameParts(x.a, x.b, x.c + "." + x.d + "/" + x.len, "1", "2", "0.0/16");
  }

  lemma NotIn12(c: nat, d: nat)
    requires c < 256 && d < 256
    ensures (((1 * 256 + 2) * 256 + c) * 256 + d) / 0x1_0000 != SWALLOWED_ADDRESS / 0x1_0000
  {
  }

  lemma WidenedDoesNotCover(x: Cidr)
    requires WellFormed(x) && Text(x) == "1.2.0.0/16"
    ensures !Covers(x, SWALLOWED_ADDRESS)
  {
    EndsIn16(x);
    StartsWith12(x);
    PowersHere();
    Digits();
    NotIn12(NumberOf(x.c), NumberOf(x.d));
  }

  lemma TextIsNotEmpty(x: Cidr)
    ensures Text(x) != ""
  {
    assert Text(x)[|x.a|] == '.';
  }

  lemma RunsDoNotCover(core: string)
    requires Run(core)
    ensures Contribution(core).Some? && !CoveredBy(Contribution(core).value, SWALLOWED_ADDRESS)
  {
    RunContributes(core);
    var out := Contribution(core).value;
    forall x | WellFormed(x) && Text(x) == out ensures !Covers(x, SWALLOWED_ADDRESS) {
      TextIsNotEmpty(x);
      WidenedDoesNotCover(x);
    }
  }

  lemma RunsLose(data: string)
    requires AllRuns(Lines(data))
    ensures !Kept(data, SWALLOWED_ADDRESS)
  {
    forall out | out in Outputs(data) ensures !CoveredBy(out, SWALLOWED_ADDRESS) {
      DedupMembers(Targets(Lines(data)));
      TargetFrom(Lines(data), out);
      var j :| 0 <= j < |Lines(data)| && Target(Lines(data)[j]) == Some(out);
      RunsDoNotCover(TrimSpace(Lines(data)[j]));
    }
  }

  /** An entry that the separator before it glues to the others. */
  function Glued(n: nat, m: nat): seq<Cidr> {
    seq(n, k => if k == m then SWALLOWED else OPENING)
  }

  lemma GluedReads(seps: seq<string>, m: nat)
    requires Blanks(seps) && m < |seps| && ' ' !in seps[m]
    ensures var entries := Glued(|seps| + 1, m + 1);
            && AllWellFormed(entries) && Covers(entries[m + 1], SWALLOWED_ADDRESS)
            && Closing(Texts(entries)) && Follows(Texts(entries), seps) && Opens(Texts(entries)[0])
  {
    var entries := Glued(|seps| + 1, m + 1);
    SampleEntries();
    TextsAreSolid(entries);
    forall k | 0 <= k < |entries| ensures Closes(Texts(entries)[k]) && (k == m + 1 || Opens(Texts(entries)[k])) {
      assert Texts(entries)[k] == Text(if k == m + 1 then SWALLOWED else OPENING);
    }
  }

  lemma ReadsAsRuns(lead: string, texts: seq<string>, seps: seq<string>, trail: string)
    requires AllSpace(lead) && AllSpace(trail) && Blanks(seps) && |texts| == |seps| + 1
    requires Closing(texts) && Follows(texts, seps) && Opens(texts[0])
    ensures AllRuns(Lines(lead + Layout(texts, seps) + trail))
  {
    LinesOf(lead, texts, seps, trail);
    NothingOpen();
    RunsOnly("", "", "", texts, seps);
    assert "" + ("" + Layout(texts, seps)) == Layout(texts, seps);
  }

  lemma UnspacedLoses(lead: string, seps: seq<string>, trail: string, m: nat)
    requires AllSpace(lead) && AllSpace(trail) && Blanks(seps) && m < |seps| && ' ' !in seps[m]
    ensures AllWellFormed(Glued(|seps| + 1, m + 1))
    ensures !LosesNothing(lead + Layout(Texts(Glued(|seps| + 1, m + 1)), seps) + trail, Glued(|seps| + 1, m + 1))
  {
    var entries := Glued(|seps| + 1, m + 1);
    GluedReads(seps, m);
    ReadsAsRuns(lead, Texts(entries), seps, trail);
    RunsLose(lead + Layout(Texts(entries), seps) + trail);
  }

  /** Whatever the entries, no address is lost, exactly when every separator has a space in it. */
  lemma SafeExactly(lead: string, seps: seq<string>, trail: string)
    requires AllSpace(lead) && AllSpace(trail) && Blanks(seps)
    ensures Safe(lead, seps, trail) <==> Spaced(seps)
  {
    if Spaced(seps) {
      forall entries | |entries| == |seps| + 1 && AllWellFormed(entries)
        ensures LosesNothing(lead + Layout(Texts(entries), seps) + trail, entries)
      {
        SpacedIsSafe(lead, seps, trail, entries);
      }
    } else {
      var m :| 0 <= m < |seps| && ' ' !in seps[m];
      UnspacedLoses(lead, seps, trail, m);
    }
  }

  lemma TwoEntries(a: string, sep: string, b: string)
    ensures "" + Layout([a, b], [sep]) + "" == a + sep + b
  {
    var texts, seps := [a, b], [sep];
    assert texts[1..] == [b] && seps[1..] == [];
    assert Layout(texts, seps) == a + (sep + b);
  }

  lemma TwoLinesRead(a: string, b: string)
    requires Solid(a) && Closes(a) && Opens(a) && Solid(b) && Closes(b)
    ensures AllRuns(Lines(a + "\n" + b))
  {
    ReadsAsRuns("", [a, b], ["\n"], "");
    TwoEntries(a, "\n", b);
  }

  /** Two /24 on two lines: the second is lost. */
  lemma LostBehindNewline()
    ensures WellFormed(SWALLOWED) && Covers(SWALLOWED, SWALLOWED_ADDRESS)
    ensures !Kept(Text(OPENING) + "\n" + Text(SWALLOWED), SWALLOWED_ADDRESS)
  {
    SampleEntries();
    TextIsSolid(OPENING);
    TextIsSolid(SWALLOWED);
    TwoLinesRead(Text(OPENING), Text(SWALLOWED));
    RunsLose(Text(OPENING) + "\n" + Text(SWALLOWED));
  }
}
