/** logger_log: a line assembled stage by stage in one 4096-byte buffer. */
module LogWriter {
  import opened Text

  const SIZE := 4096
  const NUL := '\0'
  const STAGES := 9

  const RESET := "\U{1B}[0m"
  const BOLD := "\U{1B}[1m"
  const LEVEL_NAMES := ["DEBUG", "INFO", "WARN", "ERROR", "FATAL"]
  const LEVEL_COLORS := ["\U{1B}[36m", "\U{1B}[32m", "\U{1B}[33m", "\U{1B}[31m", "\U{1B}[35m"]

  datatype Config = Config(
    initialized: bool, minLevel: nat, useColors: bool,
    showTimestamp: bool, showLevel: bool, showFileInfo: bool, component: string)

  datatype Call = Call(level: nat, timestamp: string, file: string, line: int, func: string, message: string)

  /** strrchr(path, '/'), -1 for none. */
  function LastSlash(path: string): (i: int)
    ensures -1 <= i < |path|
    ensures i >= 0 ==> path[i] == '/'
    ensures forall m :: i < m < |path| ==> path[m] != '/'
  {
    if path == "" then -1
    else if path[|path| - 1] == '/' then |path| - 1
    else LastSlash(path[..|path| - 1])
  }

  function Basename(path: string): (r: string)
    ensures '/' !in r
    ensures |r| <= |path| && r == path[|path| - |r|..]
    ensures |r| < |path| ==> path[|path| - |r| - 1] == '/'
  {
    path[LastSlash(path) + 1..]
  }

  // the segments, in order, each with the test that enables it
  datatype Segment = Segment(on: bool, text: string)

  function LevelText(colors: bool, level: nat): string
    requires level < 5
  {
    if colors then BOLD + LEVEL_NAMES[level] + RESET else LEVEL_NAMES[level]
  }

  function FileText(file: string, line: string, func: string): string {
    file + ":" + line + ":" + func
  }

  function Brackets(s: string): string {
    "[" + s + "]"
  }

  function SegmentAt(g: Config, c: Call, k: nat): Segment
    requires c.level < 5 && k < STAGES
  {
    if k == 0 then Segment(g.useColors, LEVEL_COLORS[c.level])
    else if k == 1 then Segment(g.showTimestamp, Brackets(c.timestamp))
    else if k == 2 then Segment(|g.component| > 0, Brackets(g.component))
    else if k == 3 then Segment(g.showLevel, Brackets(LevelText(g.useColors, c.level)))
    else if k == 4 then Segment(g.showFileInfo, Brackets(FileText(Basename(c.file), Signed(c.line), c.func)))
    else if k == 5 then Segment(true, " ")
    else if k == 6 then Segment(g.useColors, RESET)
    else if k == 7 then Segment(true, c.message)
    else Segment(true, "\n")
  }

  function Segments(g: Config, c: Call): seq<Segment>
    requires c.level < 5
  {
    seq(STAGES, k requires 0 <= k < STAGES => SegmentAt(g, c, k))
  }

  /** The first k segments, were the buffer unbounded. */
  function LineTo(segments: seq<Segment>, k: nat): string
    requires k <= |segments|
  {
    if k == 0 then ""
    else LineTo(segments, k - 1) + (if segments[k - 1].on then segments[k - 1].text else "")
  }

  /** The whole line, were the buffer unbounded. */
  function FullLine(segments: seq<Segment>): string {
    LineTo(segments, |segments|)
  }

  predicate Clean(s: string) {
    NUL !in s
  }

  predicate CleanSegments(segments: seq<Segment>) {
    forall i :: 0 <= i < |segments| ==> Clean(segments[i].text)
  }

  /** The buffer read as a C string: everything before the first NUL. */
  function CString(b: seq<char>): (r: string)
    ensures r <= b && Clean(r)
    ensures |r| < |b| ==> b[|r|] == NUL
    ensures r == b <==> Clean(b)
  {
    if b == [] || b[0] == NUL then [] else [b[0]] + CString(b[1..])
  }

  /** The buffer holds the line so far, cut to fit, and is terminated once anything was written. */
  ghost predicate Holds(b: seq<char>, line: string, terminated: bool) {
    && |b| == SIZE
    && (forall i :: 0 <= i < |Truncated(line, SIZE - 1)| ==> b[i] == line[i])
    && (terminated ==> b[|Truncated(line, SIZE - 1)|] == NUL)
  }

  /** snprintf into the rest of the buffer; all writes stay inside it. */
  method Snprintf(buffer: array<char>, pos: nat, remaining: nat, text: string) returns (written: nat)
    requires buffer.Length == SIZE && remaining > 0 && pos + remaining == SIZE
    modifies buffer
    ensures written == |text|
    ensures var n := |Truncated(text, remaining - 1)|;
            && (forall i :: 0 <= i < n ==> buffer[pos + i] == text[i])
            && buffer[pos + n] == NUL
    ensures forall i :: 0 <= i < pos ==> buffer[i] == old(buffer[i])
  {
    var n := |Truncated(text, remaining - 1)|;
    for i := 0 to n
      invariant forall m :: 0 <= m < i ==> buffer[pos + m] == text[m]
      invariant forall m :: 0 <= m < pos ==> buffer[m] == old(buffer[m])
    {
      buffer[pos + i] := text[i];
    }
    buffer[pos + n] := NUL;
    written := |text|;
  }

  predicate AnyOn(segments: seq<Segment>, k: nat)
    requires k <= |segments|
  {
    exists i :: 0 <= i < k && segments[i].on
  }

  /** After k stages: the position is the length so far until the buffer is full, then it stays past the end. */
  ghost predicate Progress(b: seq<char>, segments: seq<Segment>, k: nat, pos: nat, remaining: int) {
    && k <= |segments|
    && remaining == SIZE - pos
    && (remaining > 0 ==> pos == |LineTo(segments, k)|)
    && (remaining <= 0 ==> |LineTo(segments, k)| >= SIZE && AnyOn(segments, k))
    && Holds(b, LineTo(segments, k), AnyOn(segments, k))
  }

  lemma Skipped(b: seq<char>, segments: seq<Segment>, k: nat, pos: nat, remaining: int)
    requires k < |segments| && Progress(b, segments, k, pos, remaining) && (!segments[k].on || remaining <= 0)
    ensures Progress(b, segments, k + 1, pos, remaining)
  {
  }

  lemma Appended(b: seq<char>, after: seq<char>, segments: seq<Segment>, k: nat, pos: nat, remaining: int)
    requires k < |segments| && Progress(b, segments, k, pos, remaining) && segments[k].on && remaining > 0
    requires |after| == SIZE && forall i :: 0 <= i < pos ==> after[i] == b[i]
    requires var n := |Truncated(segments[k].text, remaining - 1)|;
             (forall i :: 0 <= i < n ==> after[pos + i] == segments[k].text[i]) && after[pos + n] == NUL
    ensures Progress(after, segments, k + 1, pos + |segments[k].text|, remaining - |segments[k].text|)
  {
    var text, line := segments[k].text, LineTo(segments, k + 1);
    assert line == LineTo(segments, k) + text;
    forall i | 0 <= i < |Truncated(line, SIZE - 1)| ensures after[i] == line[i] {
      if i >= pos {
        assert line[i] == text[i - pos] && after[pos + (i - pos)] == text[i - pos];
      } else {
        assert line[i] == LineTo(segments, k)[i];
      }
    }
  }

  /** One guarded stage: skipped when disabled or when the buffer is already full. */
  method Stage(buffer: array<char>, segments: seq<Segment>, k: nat, pos: nat, remaining: int)
    returns (newPos: nat, newRemaining: int)
    requires buffer.Length == SIZE && k < |segments| && Progress(buffer[..], segments, k, pos, remaining)
    modifies buffer
    ensures Progress(buffer[..], segments, k + 1, newPos, newRemaining)
  {
    newPos, newRemaining := pos, remaining;
    if segments[k].on && remaining > 0 {
      var written := Snprintf(buffer, pos, remaining, segments[k].text);
      newPos := pos + written;
      newRemaining := remaining - written;
      Appended(old(buffer[..]), buffer[..], segments, k, pos, remaining);
    } else {
      Skipped(buffer[..], segments, k, pos, remaining);
    }
  }

  /** Reading a terminated buffer sees what was put before the terminator, up to its own first NUL. */
  lemma {:induction false} ReadsBack(b: seq<char>, line: string)
    requires |line| < |b| && b[|line|] == NUL && forall i :: 0 <= i < |line| ==> b[i] == line[i]
    ensures CString(b) == CString(line)
  {
    if line != [] && line[0] != NUL {
      ReadsBack(b[1..], line[1..]);
    }
  }

  lemma Finished(segments: seq<Segment>, b: seq<char>, pos: nat, remaining: int)
    requires |segments| == STAGES && segments[5].on && Progress(b, segments, 9, pos, remaining)
    ensures CString(b) == CString(Truncated(FullLine(segments), SIZE - 1))
  {
    ReadsBack(b, Truncated(FullLine(segments), SIZE - 1));
  }

  /** The stages before the separator. */
  method WritePrefix(buffer: array<char>, segments: seq<Segment>) returns (pos: nat, remaining: int)
    requires |segments| == STAGES && buffer.Length == SIZE
    modifies buffer
    ensures Progress(buffer[..], segments, 5, pos, remaining)
  {
    pos, remaining := Stage(buffer, segments, 0, 0, SIZE);         // color prefix
    pos, remaining := Stage(buffer, segments, 1, pos, remaining);  // timestamp
    pos, remaining := Stage(buffer, segments, 2, pos, remaining);  // component name
    pos, remaining := Stage(buffer, segments, 3, pos, remaining);  // log level
    pos, remaining := Stage(buffer, segments, 4, pos, remaining);  // file info
  }

  /** The nine guarded stages over one uninitialised buffer, then fprintf("%s"). */
  method WriteSegments(segments: seq<Segment>) returns (out: string)
    requires |segments| == STAGES && segments[5].on
    ensures out == CString(Truncated(FullLine(segments), SIZE - 1))
  {
    var buffer := new char[SIZE];
    var pos, remaining := WritePrefix(buffer, segments);
    pos, remaining := Stage(buffer, segments, 5, pos, remaining);  // separator
    pos, remaining := Stage(buffer, segments, 6, pos, remaining);  // color reset
    pos, remaining := Stage(buffer, segments, 7, pos, remaining);  // user message
    pos, remaining := Stage(buffer, segments, 8, pos, remaining);  // newline
    Finished(segments, buffer[..], pos, remaining);
    out := CString(buffer[..]);
  }

  /**
   The emitted line is the first 4095 characters of all enabled segments in order (read as a C
   string); nothing is emitted before initialisation or below the minimum level.
   */
  method LogLine(g: Config, c: Call) returns (out: string)
    requires c.level < 5
    ensures out == if !g.initialized || c.level < g.minLevel then ""
                   else CString(Truncated(FullLine(Segments(g, c)), SIZE - 1))
  {
    if !g.initialized || c.level < g.minLevel {
      return "";
    }
    var segments := Segments(g, c);
    out := WriteSegments(segments);
  }

  lemma {:induction false} LineClean(segments: seq<Segment>, k: nat)
    requires k <= |segments| && CleanSegments(segments)
    ensures Clean(LineTo(segments, k))
  {
    if k > 0 {
      LineClean(segments, k - 1);
    }
  }

  /** All five strings come from C strings, so they hold no NUL of their own. */
  predicate CleanCall(g: Config, c: Call) {
    Clean(g.component) && Clean(c.timestamp) && Clean(c.file) && Clean(c.func) && Clean(c.message)
  }

  lemma {:induction false} DecimalClean(n: nat)
    ensures Clean(Decimal(n))
  {
    if n >= 10 {
      DecimalClean(n / 10);
    }
  }

  lemma NumberClean(n: int)
    ensures Clean(Signed(n))
  {
    DecimalClean(if n < 0 then -n else n);
  }

  lemma LevelsClean(level: nat)
    requires level < 5
    ensures Clean(LEVEL_NAMES[level]) && Clean(LEVEL_COLORS[level]) && Clean(BOLD) && Clean(RESET)
  {
  }

  lemma LevelTextClean(colors: bool, level: nat)
    requires level < 5
    ensures Clean(LevelText(colors, level))
  {
    LevelsClean(level);
  }

  lemma FileTextClean(file: string, line: string, func: string)
    requires Clean(file) && Clean(line) && Clean(func)
    ensures Clean(FileText(file, line, func))
  {
  }

  lemma BracketsClean(s: string)
    requires Clean(s)
    ensures Clean(Brackets(s))
  {
  }

  lemma SegmentClean(g: Config, c: Call, k: nat)
    requires c.level < 5 && CleanCall(g, c) && k < STAGES
    ensures Clean(SegmentAt(g, c, k).text)
  {
    if k == 0 || k == 6 {
      LevelsClean(c.level);
    } else if k == 1 {
      BracketsClean(c.timestamp);
    } else if k == 2 {
      BracketsClean(g.component);
    } else if k == 3 {
      LevelTextClean(g.useColors, c.level);
      BracketsClean(LevelText(g.useColors, c.level));
    } else if k == 4 {
      NumberClean(c.line);
      FileTextClean(Basename(c.file), Signed(c.line), c.func);
      BracketsClean(FileText(Basename(c.file), Signed(c.line), c.func));
    }
  }

  lemma SegmentsClean(g: Config, c: Call)
    requires c.level < 5 && CleanCall(g, c)
    ensures CleanSegments(Segments(g, c))
  {
    forall k | 0 <= k < STAGES ensures Clean(Segments(g, c)[k].text) {
      SegmentClean(g, c, k);
    }
  }

  /** With clean arguments nothing is lost but what does not fit. */
  lemma {:induction false} CleanLineIsWhole(g: Config, c: Call)
    requires c.level < 5 && CleanCall(g, c)
    ensures var line := FullLine(Segments(g, c)); CString(Truncated(line, SIZE - 1)) == Truncated(line, SIZE - 1)
  {
    SegmentsClean(g, c);
    LineClean(Segments(g, c), STAGES);
  }

  function When(on: bool, text: string): string {
    if on then text else ""
  }

  function ColorPart(g: Config, c: Call): string
    requires c.level < 5
  {
    When(g.useColors, LEVEL_COLORS[c.level])
  }

  function TimePart(g: Config, c: Call): string {
    When(g.showTimestamp, "[" + c.timestamp + "]")
  }

  function ComponentPart(g: Config): string {
    When(g.component != "", "[" + g.component + "]")
  }

  function LevelPart(g: Config, c: Call): string
    requires c.level < 5
  {
    When(g.showLevel, "[" + When(g.useColors, BOLD) + LEVEL_NAMES[c.level] + When(g.useColors, RESET) + "]")
  }

  function PlacePart(g: Config, c: Call): string {
    When(g.showFileInfo, "[" + (Basename(c.file) + ":" + Signed(c.line) + ":" + c.func) + "]")
  }

  /**
   The whole line in terms of configuration and call: each part in its brackets exactly when it is
   enabled, the component when it has a name, the level in bold between colors, and always a space
   before the message and a newline after it.
   */
  lemma {:induction false} LineText(g: Config, c: Call)
    requires c.level < 5
    ensures FullLine(Segments(g, c))
         == ColorPart(g, c) + TimePart(g, c) + ComponentPart(g) + LevelPart(g, c) + PlacePart(g, c)
            + " " + When(g.useColors, RESET) + c.message + "\n"
  {
    var s := Segments(g, c);
    LevelIs(g, c);
    PlaceIs(g, c);
    assert s[0] == SegmentAt(g, c, 0) && s[1] == SegmentAt(g, c, 1) && s[2] == SegmentAt(g, c, 2);
    assert s[3] == SegmentAt(g, c, 3) && s[4] == SegmentAt(g, c, 4) && s[5] == SegmentAt(g, c, 5);
    assert s[6] == SegmentAt(g, c, 6) && s[7] == SegmentAt(g, c, 7) && s[8] == SegmentAt(g, c, 8);
    NineParts(s, ColorPart(g, c), TimePart(g, c), ComponentPart(g), LevelPart(g, c), PlacePart(g, c),
              When(g.useColors, RESET));
  }

  lemma LevelIs(g: Config, c: Call)
    requires c.level < 5
    ensures LevelPart(g, c) == When(SegmentAt(g, c, 3).on, SegmentAt(g, c, 3).text)
  {
  }

  lemma PlaceIs(g: Config, c: Call)
    requires c.level < 5
    ensures PlacePart(g, c) == When(SegmentAt(g, c, 4).on, SegmentAt(g, c, 4).text)
  {
  }

  lemma NineParts(s: seq<Segment>, a: string, b: string, c: string, d: string, e: string, f: string)
    requires |s| == STAGES && s[5].on && s[7].on && s[8].on
    requires a == When(s[0].on, s[0].text) && b == When(s[1].on, s[1].text) && c == When(s[2].on, s[2].text)
    requires d == When(s[3].on, s[3].text) && e == When(s[4].on, s[4].text) && f == When(s[6].on, s[6].text)
    ensures FullLine(s) == a + b + c + d + e + s[5].text + f + s[7].text + s[8].text
  {
    assert LineTo(s, 0) == "";
    assert LineTo(s, 1) == a;
    assert LineTo(s, 2) == a + b;
    assert LineTo(s, 3) == a + b + c;
    assert LineTo(s, 4) == a + b + c + d;
    assert LineTo(s, 5) == a + b + c + d + e;
    assert LineTo(s, 6) == a + b + c + d + e + s[5].text;
    assert LineTo(s, 7) == a + b + c + d + e + s[5].text + f;
    assert LineTo(s, 8) == a + b + c + d + e + s[5].text + f + s[7].text;
  }
}
