/** The PEM printer and parser of an identity file. */
module Pem {
  import opened Common
  import Base64

  const COLUMNS := 64

  datatype Block = Block(tag: string, bytes: seq<byte>)

  datatype PemError = MissingBlock | UnterminatedBlock | BadBody

  // ---- Printer -------------------------------------------------------------

  /** `-----BEGIN X-----` for `w == "BEGIN X"`, and likewise for `END`. */
  function Marker(w: string): string { "-----" + w + "-----" }

  function Line(w: string): string { Marker(w) + "\n" }

  function Wrapped(s: string): string {
    if |s| == 0 then ""
    else if |s| <= COLUMNS then s + "\n"
    else s[..COLUMNS] + "\n" + Wrapped(s[COLUMNS..])
  }

  function Body(b: Block): string { Wrapped(Base64.Encode(b.bytes)) }

  function Printed(b: Block): string {
    Line("BEGIN " + b.tag) + Body(b) + Line("END " + b.tag)
  }

  function File(blocks: seq<Block>): string {
    if blocks == [] then "" else Printed(blocks[0]) + File(blocks[1..])
  }

  lemma WrappedStep(s: string)
    requires s != ""
    ensures var n := Min(COLUMNS, |s|); Wrapped(s) == s[..n] + "\n" + Wrapped(s[n..])
  {
    if |s| <= COLUMNS {
      assert s[..|s|] == s && s[|s|..] == "";
      assert s + "\n" + "" == s + "\n";
    }
  }

  lemma WrappedAfter(before: string, s: string)
    requires s != ""
    ensures var n := Min(COLUMNS, |s|); before + Wrapped(s) == before + s[..n] + "\n" + Wrapped(s[n..])
  {
    var n := Min(COLUMNS, |s|);
    WrappedStep(s);
    Associate(before, s[..n], "\n", Wrapped(s[n..]));
  }

  lemma Associate(a: string, b: string, c: string, d: string)
    ensures a + (b + c + d) == a + b + c + d
  {
  }

  method EncodePemBlock(b: Block) returns (output: string)
    ensures output == Printed(b)
  {
    var encoded := Base64.Encode(b.bytes);
    output := "-----BEGIN " + b.tag + "-----\n";
    assert output == Line("BEGIN " + b.tag);
    var i := 0;
    while i < |encoded|
      invariant 0 <= i <= |encoded|
      invariant output + Wrapped(encoded[i..]) == Line("BEGIN " + b.tag) + Wrapped(encoded)
    {
      var rest := encoded[i..];
      var chunk := rest[..Min(COLUMNS, |rest|)];
      hide Wrapped, Line;
      WrappedAfter(output, rest);
      assert rest[|chunk|..] == encoded[i + |chunk|..];
      output := output + chunk;
      output := output + "\n";
      i := i + |chunk|;
    }
    assert encoded[i..] == "";
    assert output == Line("BEGIN " + b.tag) + Wrapped(encoded);
    output := output + "-----END " + b.tag + "-----\n";
    assert Line("END " + b.tag) == "-----END " + b.tag + "-----\n";
  }

  // ---- Parser --------------------------------------------------------------

  predicate MatchAt(text: string, pattern: string, i: nat) {
    i + |pattern| <= |text| && text[i..i + |pattern|] == pattern
  }

  /** `str::find` from position `i` on. */
  function Find(text: string, pattern: string, i: nat): Option<nat>
    decreases |text| - i
  {
    if i + |pattern| > |text| then None
    else if MatchAt(text, pattern, i) then Some(i)
    else Find(text, pattern, i + 1)
  }

  function TrimStart(s: string): string {
    if s != "" && IsSpace(s[0]) then TrimStart(s[1..]) else s
  }

  function TrimEnd(s: string): string {
    if s != "" && IsSpace(s[|s| - 1]) then TrimEnd(s[..|s| - 1]) else s
  }

  function Trim(s: string): string { TrimEnd(TrimStart(s)) }

  function StripCr(s: string): string {
    if s != "" && s[|s| - 1] == '\r' then s[..|s| - 1] else s
  }

  /** `text.lines().map(str::trim).collect()`. */
  function JoinedLines(text: string): string
    decreases |text|
  {
    if text == "" then ""
    else
      var newline := Find(text, "\n", 0);
      if newline.None? then Trim(text)
      else (FindInRange(text, "\n", 0);
            Trim(StripCr(text[..newline.value])) + JoinedLines(text[newline.value + 1..]))
  }

  function DecodePemBlock(contents: string, tag: string): Result<seq<byte>, PemError> {
    var begin, end := Marker("BEGIN " + tag), Marker("END " + tag);
    var at := Find(contents, begin, 0);
    if at.None? then Err(MissingBlock)
    else
      FindInRange(contents, begin, 0);
      var tail := contents[at.value + |begin|..];
      var stop := Find(tail, end, 0);
      if stop.None? then Err(UnterminatedBlock)
      else
        FindInRange(tail, end, 0);
        var bytes := Base64.Decode(JoinedLines(tail[..stop.value]));
        if bytes.None? then Err(BadBody) else Ok(bytes.value)
  }

  lemma {:induction false} FindInRange(text: string, pattern: string, i: nat)
    ensures var r := Find(text, pattern, i); r.Some? ==> i <= r.value && r.value + |pattern| <= |text|
    decreases |text| - i
  {
    if i + |pattern| <= |text| && !MatchAt(text, pattern, i) {
      FindInRange(text, pattern, i + 1);
    }
  }

  // ---- Searching -----------------------------------------------------------

  /** `find` returns the first match, if there is one. */
  lemma {:induction false} FindFirst(text: string, pattern: string, i: nat, k: nat)
    requires i <= k && MatchAt(text, pattern, k)
    requires forall j :: i <= j < k ==> !MatchAt(text, pattern, j)
    ensures Find(text, pattern, i) == Some(k)
    decreases k - i
  {
    if i < k {
      FindFirst(text, pattern, i + 1, k);
    }
  }

  lemma {:induction false} FindNothing(text: string, pattern: string, i: nat)
    requires forall j :: i <= j ==> !MatchAt(text, pattern, j)
    ensures Find(text, pattern, i) == None
    decreases |text| - i
  {
    if i + |pattern| <= |text| {
      FindNothing(text, pattern, i + 1);
    }
  }

  /** The search answers with the first match, and with nothing exactly when there is none. */
  lemma {:induction false} FindExactly(text: string, pattern: string, i: nat)
    ensures var r := Find(text, pattern, i);
      && (r.None? <==> forall j :: i <= j ==> !MatchAt(text, pattern, j))
      && (r.Some? ==>
            && i <= r.value && MatchAt(text, pattern, r.value)
            && forall j :: i <= j < r.value ==> !MatchAt(text, pattern, j))
    decreases |text| - i
  {
    if i + |pattern| <= |text| && !MatchAt(text, pattern, i) {
      FindExactly(text, pattern, i + 1);
      hide MatchAt;
    }
  }

  ghost predicate FirstAt(text: string, pattern: string, from: nat, k: nat) {
    from <= k && MatchAt(text, pattern, k) && forall j :: from <= j < k ==> !MatchAt(text, pattern, j)
  }

  ghost predicate Nowhere(text: string, pattern: string, from: nat) {
    forall j :: from <= j ==> !MatchAt(text, pattern, j)
  }

  lemma TailMatches(text: string, n: nat, pattern: string)
    requires n <= |text|
    ensures Nowhere(text, pattern, n) <==> Nowhere(text[n..], pattern, 0)
    ensures forall k :: n <= k ==> (FirstAt(text, pattern, n, k) <==> FirstAt(text[n..], pattern, 0, k - n))
  {
    var tail := text[n..];
    assert text == text[..n] + tail;
    forall j: nat ensures MatchAt(text, pattern, n + j) <==> MatchAt(tail, pattern, j) {
      MatchShift(text[..n], tail, pattern, j);
    }
    hide MatchAt;
    assert forall j :: n <= j ==> (MatchAt(text, pattern, j) <==> MatchAt(tail, pattern, j - n)) by {
      forall j | n <= j ensures MatchAt(text, pattern, j) <==> MatchAt(tail, pattern, j - n) {
        assert j == n + (j - n);
      }
    }
    assert forall j: nat :: MatchAt(tail, pattern, j) ==> MatchAt(text, pattern, n + j);
  }

  lemma FindSays(text: string, pattern: string, k: nat)
    ensures Find(text, pattern, 0).None? <==> Nowhere(text, pattern, 0)
    ensures Find(text, pattern, 0) == Some(k) <==> FirstAt(text, pattern, 0, k)
  {
    FindExactly(text, pattern, 0);
    if FirstAt(text, pattern, 0, k) { FindFirst(text, pattern, 0, k); }
    hide MatchAt;
  }

  /** The begin and end markers of a label. */
  function Begin(tag: string): string { Marker("BEGIN " + tag) }
  function End(tag: string): string { Marker("END " + tag) }

  /**
   * Any text is read as the decoded lines between the first begin marker at `b` and the first end
   * marker behind it at `e`; it fails for want of the one or of the other, or of decodable lines.
   */
  lemma DecodedExactly(text: string, tag: string, b: nat, e: nat)
    ensures DecodePemBlock(text, tag) == Err(MissingBlock) <==> Nowhere(text, Begin(tag), 0)
    ensures FirstAt(text, Begin(tag), 0, b) ==>
      (DecodePemBlock(text, tag) == Err(UnterminatedBlock) <==> Nowhere(text, End(tag), b + |Begin(tag)|))
    ensures FirstAt(text, Begin(tag), 0, b) && FirstAt(text, End(tag), b + |Begin(tag)|, e) ==>
      && e <= |text|
      && var body := Base64.Decode(JoinedLines(text[b + |Begin(tag)|..e]));
      DecodePemBlock(text, tag) == if body.Some? then Ok(body.value) else Err(BadBody)
  {
    FindSays(text, Begin(tag), b);
    hide MatchAt, Marker, JoinedLines, Base64.Decode, FirstAt, Nowhere;
    if FirstAt(text, Begin(tag), 0, b) {
      FindInRange(text, Begin(tag), 0);
      var n := b + |Begin(tag)|;
      var tail := text[n..];
      TailMatches(text, n, End(tag));
      FindSays(tail, End(tag), if e >= n then e - n else 0);
      FindInRange(tail, End(tag), 0);
      if FirstAt(text, End(tag), n, e) {
        FirstBehind(text, End(tag), n, e);
        assert tail[..e - n] == text[n..e];
      }
    }
  }

  lemma FirstBehind(text: string, pattern: string, from: nat, k: nat)
    requires FirstAt(text, pattern, from, k)
    ensures from <= k && k + |pattern| <= |text|
  {
  }

  lemma MatchShift(a: string, b: string, pattern: string, i: nat)
    ensures MatchAt(a + b, pattern, |a| + i) <==> MatchAt(b, pattern, i)
  {
  }

  lemma MatchChar(text: string, pattern: string, i: nat, k: nat)
    requires MatchAt(text, pattern, i) && k < |pattern|
    ensures text[i + k] == pattern[k]
  {
  }

  ghost predicate DashFree(s: string) {
    forall i :: 0 <= i < |s| ==> s[i] != '-'
  }

  /** A marker never matches where the text has no dash. */
  lemma NoMatchInDashFree(s: string, rest: string, v: string, i: nat)
    requires DashFree(s) && i < |s|
    ensures !MatchAt(s + rest, Marker(v), i)
  {
    if MatchAt(s + rest, Marker(v), i) {
      MatchChar(s + rest, Marker(v), i, 0);
    }
  }

  /** Inside a marker line, a marker matches only at its start, and only if it is the same marker. */
  lemma MatchInLine(w: string, rest: string, v: string, i: nat)
    requires DashFree(w) && w != "" && DashFree(v) && v != "" && v[0] != '\n'
    requires i < |Line(w)| && MatchAt(Line(w) + rest, Marker(v), i)
    ensures i == 0 && w == v
  {
    var text, p := Line(w) + rest, Marker(v);
    var n := |w|;
    if 0 < i < 5 {
      assert text[5] == w[0];
      MatchChar(text, p, i, 5 - i);
    } else if 5 <= i < 5 + n {
      assert text[i] == w[i - 5];
      MatchChar(text, p, i, 0);
    } else if 5 + n <= i {
      assert text[10 + n] == '\n';
      MatchChar(text, p, i, 10 + n - i);
    } else {
      SameMarker(w, rest, v);
    }
  }

  lemma SameMarker(w: string, rest: string, v: string)
    requires DashFree(w) && DashFree(v) && MatchAt(Line(w) + rest, Marker(v), 0)
    ensures w == v
  {
    var text, p := Line(w) + rest, Marker(v);
    var m := Min(|w|, |v|);
    MatchChar(text, p, 0, 5 + m);
    assert |w| == |v|;
    forall k | 0 <= k < |w| ensures w[k] == v[k] {
      MatchChar(text, p, 0, 5 + k);
      assert text[5 + k] == w[k] && p[5 + k] == v[k];
    }
  }

  lemma LineMatchesItself(w: string, rest: string)
    ensures MatchAt(Line(w) + rest, Marker(w), 0)
  {
  }

  // ---- Bodies --------------------------------------------------------------

  ghost predicate SpaceFree(s: string) {
    forall i :: 0 <= i < |s| ==> !IsSpace(s[i])
  }

  lemma {:induction false} WrappedDashFree(s: string)
    requires DashFree(s)
    ensures DashFree(Wrapped(s))
  {
    if |s| > COLUMNS {
      WrappedDashFree(s[COLUMNS..]);
    }
  }

  lemma NewlineAt(a: string, rest: string)
    requires SpaceFree(a)
    ensures Find(a + "\n" + rest, "\n", 0) == Some(|a|)
  {
    var text := a + "\n" + rest;
    assert text[|a|..|a| + 1] == "\n";
    forall j | 0 <= j < |a| ensures !MatchAt(text, "\n", j) {
      assert text[j..j + 1][0] == a[j];
    }
    FindFirst(text, "\n", 0, |a|);
  }

  lemma JoinedFirstLine(a: string, rest: string)
    requires SpaceFree(a)
    ensures JoinedLines(a + "\n" + rest) == a + JoinedLines(rest)
  {
    var text := a + "\n" + rest;
    NewlineAt(a, rest);
    assert text[..|a|] == a && text[|a| + 1..] == rest;
    assert Trim(StripCr(a)) == a;
  }

  lemma {:induction false} TrimStartDrops(blank: string, s: string)
    requires Blank(blank) && (s != "" ==> !IsSpace(s[0]))
    ensures TrimStart(blank + s) == s
  {
    if blank == "" {
      assert blank + s == s;
    } else {
      assert (blank + s)[1..] == blank[1..] + s;
      TrimStartDrops(blank[1..], s);
    }
  }

  lemma {:induction false} TrimEndDrops(s: string, blank: string)
    requires Blank(blank) && (s != "" ==> !IsSpace(s[|s| - 1]))
    ensures TrimEnd(s + blank) == s
  {
    if blank == "" {
      assert s + blank == s;
    } else {
      var n := |blank| - 1;
      assert (s + blank)[..|s| + n] == s + blank[..n];
      TrimEndDrops(s, blank[..n]);
    }
  }

  /** Trimming takes away exactly the white space around a text. */
  lemma TrimExactly(before: string, core: string, after: string)
    requires Blank(before) && Blank(after) && core != "" && !IsSpace(core[0]) && !IsSpace(core[|core| - 1])
    ensures Trim(before + core + after) == core
  {
    assert before + core + after == before + (core + after);
    TrimStartDrops(before, core + after);
    TrimEndDrops(core, after);
  }

  ghost predicate OneLine(s: string) { forall i :: 0 <= i < |s| ==> s[i] != '\n' }

  /** White space around a line, a carriage return included, does not matter. */
  lemma PaddedLine(before: string, core: string, after: string, rest: string)
    requires Blank(before) && Blank(after) && OneLine(before) && OneLine(after) && core != "" && SpaceFree(core)
    ensures JoinedLines(before + core + after + "\n" + rest) == core + JoinedLines(rest)
  {
    var line := before + core + after;
    var text := line + "\n" + rest;
    assert text[|line|..|line| + 1] == "\n";
    forall j | 0 <= j < |line| ensures !MatchAt(text, "\n", j) {
      assert text[j..j + 1][0] == line[j];
    }
    FindFirst(text, "\n", 0, |line|);
    assert text[..|line|] == line && text[|line| + 1..] == rest;
    if after != "" && after[|after| - 1] == '\r' {
      assert StripCr(line) == before + core + after[..|after| - 1];
      TrimExactly(before, core, after[..|after| - 1]);
    } else {
      assert after == "" ==> line[|line| - 1] == core[|core| - 1];
      assert StripCr(line) == line;
      TrimExactly(before, core, after);
    }
  }

  /** Unwrapping undoes wrapping. */
  lemma {:induction false} JoinedWrapped(s: string)
    requires SpaceFree(s)
    ensures JoinedLines(Wrapped(s)) == s
  {
    if |s| > COLUMNS {
      JoinedFirstLine(s[..COLUMNS], Wrapped(s[COLUMNS..]));
      JoinedWrapped(s[COLUMNS..]);
      assert s[..COLUMNS] + s[COLUMNS..] == s;
    } else if s != "" {
      JoinedFirstLine(s, "");
      assert s + "\n" + "" == s + "\n" && s + "" == s;
    }
  }

  lemma BodyReadBack(b: Block)
    ensures DashFree(Body(b))
    ensures Base64.Decode(JoinedLines("\n" + Body(b))) == Some(b.bytes)
  {
    hide Base64.Encode, Base64.Decode, Wrapped, JoinedLines;
    var s := Base64.Encode(b.bytes);
    Base64.EncodeCharacters(b.bytes);
    WrappedDashFree(s);
    JoinedFirstLine("", Body(b));
    assert "" + "\n" + Body(b) == "\n" + Body(b);
    assert "" + JoinedLines(Body(b)) == JoinedLines(Body(b));
    JoinedWrapped(s);
    Base64.DecodeEncoded(b.bytes);
  }

  // ---- Files ---------------------------------------------------------------

  ghost predicate LabelsDashFree(blocks: seq<Block>) {
    forall i :: 0 <= i < |blocks| ==> DashFree(blocks[i].tag)
  }

  /** The first block with the label, as a position in the list. */
  function FirstLabelled(blocks: seq<Block>, tag: string): (r: Option<nat>)
    ensures r.Some? ==> r.value < |blocks| && blocks[r.value].tag == tag
    ensures forall j :: 0 <= j < (if r.Some? then r.value else |blocks|) ==> blocks[j].tag != tag
  {
    if blocks == [] then None
    else if blocks[0].tag == tag then Some(0)
    else
      var r := FirstLabelled(blocks[1..], tag);
      if r.None? then None else Some(r.value + 1)
  }

  lemma Regions(b: Block, rest: string)
    ensures Printed(b) + rest ==
      Line("BEGIN " + b.tag) + (Body(b) + (Line("END " + b.tag) + rest))
  {
  }

  lemma DifferentMarkers(s: string, t: string)
    ensures "BEGIN " + s != "END " + t
    ensures s != t ==> "BEGIN " + s != "BEGIN " + t
  {
    assert ("BEGIN " + s)[0] == 'B' && ("END " + t)[0] == 'E';
    assert ("BEGIN " + s)[6..] == s && ("BEGIN " + t)[6..] == t;
  }

  /** The BEGIN marker of one label occurs nowhere in a block of another. */
  lemma NoMatchInBlock(b: Block, rest: string, tag: string, i: nat)
    requires DashFree(b.tag) && DashFree(tag) && b.tag != tag
    requires i < |Printed(b)|
    ensures !MatchAt(Printed(b) + rest, Marker("BEGIN " + tag), i)
  {
    var v := "BEGIN " + tag;
    var p := Marker(v);
    var head, body, last := Line("BEGIN " + b.tag), Body(b), Line("END " + b.tag);
    var front := |head|;
    Regions(b, rest);
    Regions(b, "");
    BodyReadBack(b);
    DifferentMarkers(tag, b.tag);
    hide Body, MatchAt, Line, Marker;
    if MatchAt(Printed(b) + rest, p, i) {
      if i < front {
        MatchInLine("BEGIN " + b.tag, body + (last + rest), v, i);
      } else if i < front + |body| {
        MatchShift(head, body + (last + rest), p, i - front);
        NoMatchInDashFree(body, last + rest, v, i - front);
      } else {
        MatchShift(head, body + (last + rest), p, i - front);
        MatchShift(body, last + rest, p, i - front - |body|);
        MatchInLine("END " + b.tag, rest, v, i - front - |body|);
      }
    }
  }

  /** How a search sees a file that starts with a block of another label. */
  lemma MatchAfterBlock(b: Block, rest: string, tag: string, j: nat)
    requires DashFree(b.tag) && DashFree(tag) && b.tag != tag
    ensures MatchAt(Printed(b) + rest, Marker("BEGIN " + tag), j) <==>
      j >= |Printed(b)| && MatchAt(rest, Marker("BEGIN " + tag), j - |Printed(b)|)
  {
    hide Printed, Marker, MatchAt;
    if j < |Printed(b)| {
      NoMatchInBlock(b, rest, tag, j);
    } else {
      MatchShift(Printed(b), rest, Marker("BEGIN " + tag), j - |Printed(b)|);
    }
  }

  /** Position `n` is the first place the pattern occurs; `None` means nowhere. */
  ghost predicate FirstMatch(text: string, pattern: string, n: Option<nat>) {
    && (n.Some? ==> MatchAt(text, pattern, n.value))
    && forall j: nat :: (n.Some? ==> j < n.value) ==> !MatchAt(text, pattern, j)
  }

  function BlockOffset(blocks: seq<Block>, tag: string): Option<nat> {
    var k := FirstLabelled(blocks, tag);
    if k.None? then None else Some(|File(blocks[..k.value])|)
  }

  lemma BlockOffsetStep(blocks: seq<Block>, tag: string)
    requires blocks != [] && blocks[0].tag != tag
    ensures var n := BlockOffset(blocks[1..], tag);
      BlockOffset(blocks, tag) == if n.None? then None else Some(|Printed(blocks[0])| + n.value)
  {
    hide Printed;
    var k := FirstLabelled(blocks[1..], tag);
    if k.Some? {
      assert blocks[..k.value + 1][1..] == blocks[1..][..k.value];
    }
  }

  /** The BEGIN marker is first found at the start of the first block with the label. */
  lemma {:induction false} BeginFound(blocks: seq<Block>, tag: string)
    requires LabelsDashFree(blocks) && DashFree(tag)
    ensures FirstMatch(File(blocks), Marker("BEGIN " + tag), BlockOffset(blocks, tag))
  {
    var p := Marker("BEGIN " + tag);
    if blocks != [] {
      var b, rest := blocks[0], File(blocks[1..]);
      if b.tag == tag {
        assert blocks[..0] == [];
        Regions(b, rest);
        LineMatchesItself("BEGIN " + tag, Body(b) + (Line("END " + tag) + rest));
      } else {
        hide Marker, Printed, MatchAt;
        BeginFound(blocks[1..], tag);
        BlockOffsetStep(blocks, tag);
        forall j: nat
          ensures MatchAt(File(blocks), p, j) <==> j >= |Printed(b)| && MatchAt(rest, p, j - |Printed(b)|)
        {
          MatchAfterBlock(b, rest, tag, j);
        }
      }
    }
  }

  lemma {:induction false} FileSplit(blocks: seq<Block>, k: nat)
    requires k < |blocks|
    ensures File(blocks) == File(blocks[..k]) + Printed(blocks[k]) + File(blocks[k + 1..])
  {
    hide Printed;
    if k == 0 {
      assert blocks[..0] == [];
    } else {
      FileSplit(blocks[1..], k - 1);
      assert blocks[..k][1..] == blocks[1..][..k - 1];
      assert blocks[1..][k..] == blocks[k + 1..];
      assert File(blocks[..k]) == Printed(blocks[0]) + File(blocks[1..][..k - 1]);
    }
  }

  lemma EndFound(b: Block, rest: string)
    requires DashFree(b.tag)
    ensures Find("\n" + Body(b) + Line("END " + b.tag) + rest, Marker("END " + b.tag), 0) == Some(1 + |Body(b)|)
  {
    hide Base64.Encode;
    var w := "END " + b.tag;
    var front := "\n" + Body(b);
    var text := front + Line(w) + rest;
    assert text == front + (Line(w) + rest);
    BodyReadBack(b);
    LineMatchesItself(w, rest);
    MatchShift(front, Line(w) + rest, Marker(w), 0);
    forall j | 0 <= j < |front| ensures !MatchAt(text, Marker(w), j) {
      NoMatchInDashFree(front, Line(w) + rest, w, j);
    }
    FindFirst(text, Marker(w), 0, |front|);
  }

  /**
   * Reading any label back from any file of blocks returns the bytes of the first block that has
   * it, whatever the bytes are, and fails exactly when no block has it.
   */
  lemma FileReadBack(blocks: seq<Block>, tag: string)
    requires LabelsDashFree(blocks) && DashFree(tag)
    ensures var k := FirstLabelled(blocks, tag);
      DecodePemBlock(File(blocks), tag) ==
        if k.None? then Err(MissingBlock) else Ok(blocks[k.value].bytes)
  {
    BeginFound(blocks, tag);
    var k := FirstLabelled(blocks, tag);
    if k.None? {
      FindNothing(File(blocks), Marker("BEGIN " + tag), 0);
    } else {
      FileSplit(blocks, k.value);
      hide File;
      var before, after := File(blocks[..k.value]), File(blocks[k.value + 1..]);
      Regions(blocks[k.value], after);
      FindFirst(File(blocks), Marker("BEGIN " + tag), 0, |before|);
      BlockReadBack(before, blocks[k.value], after);
    }
  }

  lemma BlockReadBack(before: string, b: Block, after: string)
    requires DashFree(b.tag)
    requires Find(before + Printed(b) + after, Marker("BEGIN " + b.tag), 0) == Some(|before|)
    ensures DecodePemBlock(before + Printed(b) + after, b.tag) == Ok(b.bytes)
  {
    var begin, end := Marker("BEGIN " + b.tag), Line("END " + b.tag);
    var text := before + Printed(b) + after;
    var tail := "\n" + Body(b) + end + after;
    Regions(b, after);
    hide Body, Find, JoinedLines, Base64.Decode;
    assert text == before + begin + tail;
    assert text[|before| + |begin|..] == tail;
    EndFound(b, after);
    assert tail[..1 + |Body(b)|] == "\n" + Body(b);
    BodyReadBack(b);
  }

  // ---- The identity file ---------------------------------------------------

  const PRIVATE_KEY := "PRIVATE KEY"
  const ACCESS_CODE := "BITBANG ACCESS CODE"

  method SavePem(key: seq<byte>, code: seq<byte>) returns (output: string)
    ensures output == File([Block(PRIVATE_KEY, key), Block(ACCESS_CODE, code)])
  {
    hide Printed;
    output := "";
    var first := EncodePemBlock(Block(PRIVATE_KEY, key));
    output := output + first;
    var second := EncodePemBlock(Block(ACCESS_CODE, code));
    output := output + second;
    var blocks := [Block(PRIVATE_KEY, key), Block(ACCESS_CODE, code)];
    assert blocks[1..] == [Block(ACCESS_CODE, code)];
    assert blocks[1..][1..] == [];
    assert File(blocks[1..]) == second + "" == second;
    assert output == first + second;
  }

  /** Both blocks of a saved identity read back as exactly the bytes that were saved. */
  lemma IdentityRoundTrip(key: seq<byte>, code: seq<byte>)
    ensures var text := File([Block(PRIVATE_KEY, key), Block(ACCESS_CODE, code)]);
      && DecodePemBlock(text, PRIVATE_KEY) == Ok(key)
      && DecodePemBlock(text, ACCESS_CODE) == Ok(code)
  {
    var blocks := [Block(PRIVATE_KEY, key), Block(ACCESS_CODE, code)];
    assert PRIVATE_KEY[0] == 'P' && ACCESS_CODE[0] == 'B';
    assert DashFree(PRIVATE_KEY) && DashFree(ACCESS_CODE);
    assert blocks[1..][0] == blocks[1];
    FileReadBack(blocks, PRIVATE_KEY);
    FileReadBack(blocks, ACCESS_CODE);
  }
}
