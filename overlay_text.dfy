/**
 * The text logic of the video-recorder compositor
 * (hooks/videoRecorder.worker.ts): choosing the countdown and the sequence
 * line from the overlay lines, wrapping the sequence greedily at dashes, and
 * splitting a line into plain and `[[highlighted]]` segments laid out left to
 * right. Text measurement (ctx.measureText(...).width) is an arbitrary
 * function `width` from strings to reals.
 */
module OverlayText {
  import opened Wrappers

  // ------------------------------------------------------------ string basics

  /** s.startsWith(prefix) */
  predicate StartsWith(s: string, prefix: string)
  {
    |prefix| <= |s| && s[..|prefix|] == prefix
  }

  /** s.endsWith(suffix) */
  predicate EndsWith(s: string, suffix: string)
  {
    |suffix| <= |s| && s[|s| - |suffix|..] == suffix
  }

  /** s.includes(c + c): the character c twice in a row. */
  predicate HasPair(s: string, c: char)
  {
    exists i :: 0 <= i < |s| - 1 && s[i] == c && s[i + 1] == c
  }

  /** /\d/.test(s): an ASCII digit somewhere in s. */
  predicate HasDigit(s: string)
  {
    exists i :: 0 <= i < |s| && '0' <= s[i] <= '9'
  }

  /** lines.find(p), as the index of the first line satisfying p. */
  function FindFirst(lines: seq<string>, p: string -> bool): (r: Option<nat>)
    ensures r.Some? ==> r.value < |lines| && p(lines[r.value])
    ensures r.Some? ==> forall j :: 0 <= j < r.value ==> !p(lines[j])
    ensures r.None? ==> forall j :: 0 <= j < |lines| ==> !p(lines[j])
  {
    if lines == [] then None
    else if p(lines[0]) then Some(0)
    else match FindFirst(lines[1..], p)
      case None => None
      case Some(k) => Some(k + 1)
  }

  // ------------------------------------------------------------ split and join

  /** s.split(sep) for a one-character separator: the fields between separators. */
  function Split(s: string, sep: char): (parts: seq<string>)
    ensures |parts| >= 1
    decreases |s|
  {
    if s == [] then [""]
    else
      var rest := Split(s[1..], sep);
      if s[0] == sep then [""] + rest else [[s[0]] + rest[0]] + rest[1..]
  }

  /** parts.join(sep) */
  function Join(parts: seq<string>, sep: char): string
  {
    if |parts| == 0 then ""
    else if |parts| == 1 then parts[0]
    else parts[0] + [sep] + Join(parts[1..], sep)
  }

  lemma JoinCons(a: string, rest: seq<string>, sep: char)
    requires |rest| >= 1
    ensures Join([a] + rest, sep) == a + [sep] + Join(rest, sep)
  {
    assert ([a] + rest)[1..] == rest;
  }

  /** No field of a split contains the separator. */
  lemma {:induction false} SplitFieldsFree(s: string, sep: char)
    ensures forall k :: 0 <= k < |Split(s, sep)| ==> sep !in Split(s, sep)[k]
    decreases |s|
  {
    if s != [] {
      SplitFieldsFree(s[1..], sep);
    }
  }

  /** Joining the fields of a split gives the string back. */
  lemma {:induction false} JoinSplit(s: string, sep: char)
    ensures Join(Split(s, sep), sep) == s
    decreases |s|
  {
    if s != [] {
      var rest := Split(s[1..], sep);
      JoinSplit(s[1..], sep);
      if s[0] == sep {
        JoinCons("", rest, sep);
      } else {
        JoinExtendsHead(s[0], rest, sep);
      }
      assert s == [s[0]] + s[1..];
    }
  }

  /** Prepending a character to the first field prepends it to the join. */
  lemma JoinExtendsHead(c: char, rest: seq<string>, sep: char)
    requires |rest| >= 1
    ensures Join([[c] + rest[0]] + rest[1..], sep) == [c] + Join(rest, sep)
  {
    if |rest| >= 2 {
      JoinCons(rest[0], rest[1..], sep);
      assert rest == [rest[0]] + rest[1..];
      JoinCons([c] + rest[0], rest[1..], sep);
    }
  }

  /** A prefix without the separator joins onto the first field. */
  lemma {:induction false} SplitPrefix(a: string, b: string, sep: char)
    requires sep !in a
    ensures Split(a + b, sep) == [a + Split(b, sep)[0]] + Split(b, sep)[1..]
    decreases |a|
  {
    if a != [] {
      assert (a + b)[0] == a[0] && (a + b)[1..] == a[1..] + b;
      SplitPrefix(a[1..], b, sep);
      assert [a[0]] + (a[1..] + Split(b, sep)[0]) == a + Split(b, sep)[0];
    } else {
      var parts := Split(b, sep);
      assert a + b == b && a + parts[0] == parts[0];
      assert parts == [parts[0]] + parts[1..];
    }
  }

  /** Splitting a join of separator-free fields gives the fields back. */
  lemma {:induction false} SplitJoin(parts: seq<string>, sep: char)
    requires |parts| >= 1
    requires forall k :: 0 <= k < |parts| ==> sep !in parts[k]
    ensures Split(Join(parts, sep), sep) == parts
    decreases |parts|
  {
    if |parts| == 1 {
      SplitPrefix(parts[0], "", sep);
      assert parts[0] + "" == parts[0];
    } else {
      var rest := parts[1..];
      SplitJoin(rest, sep);
      var tail := Join(rest, sep);
      assert Join(parts, sep) == parts[0] + ([sep] + tail);
      SplitPrefix(parts[0], [sep] + tail, sep);
      assert ([sep] + tail)[1..] == tail;
      assert Split([sep] + tail, sep) == [""] + rest;
      assert parts[0] + "" == parts[0];
    }
  }

  // --------------------------------------------------------- line selection

  const COUNTDOWN_PREFIX: string := "COUNTDOWN:"

  predicate IsCountdownLine(line: string)
  {
    StartsWith(line, COUNTDOWN_PREFIX)
  }

  /** overlayLines.find(line => line.startsWith("COUNTDOWN:")), then its split(":")[1]. */
  function CountdownText(lines: seq<string>): (r: Option<string>)
    ensures r.Some? <==> exists k :: 0 <= k < |lines| && IsCountdownLine(lines[k])
  {
    match FindFirst(lines, IsCountdownLine)
    case None => None
    case Some(k) =>
      var parts := Split(lines[k], ':');
      CountdownHasTwoFields(lines[k]);
      Some(parts[1])
  }

  lemma CountdownHasTwoFields(line: string)
    requires IsCountdownLine(line)
    ensures |Split(line, ':')| >= 2
    ensures Split(line, ':')[0] == "COUNTDOWN"
  {
    var rest := line[|COUNTDOWN_PREFIX|..];
    assert line == "COUNTDOWN" + ([':'] + rest);
    SplitPrefix("COUNTDOWN", [':'] + rest, ':');
    assert ([':'] + rest)[1..] == rest;
  }

  /**
   * The countdown text is the field between the first and the second colon of
   * the first countdown line: that line starts with "COUNTDOWN:" and the text,
   * the text holds no colon, and whatever follows it starts with a colon.
   */
  lemma CountdownIsSecondField(lines: seq<string>, k: nat)
    requires k < |lines| && IsCountdownLine(lines[k])
    requires forall j :: 0 <= j < k ==> !IsCountdownLine(lines[j])
    ensures CountdownText(lines).Some?
    ensures var t := CountdownText(lines).value;
      StartsWith(lines[k], COUNTDOWN_PREFIX + t) && ':' !in t &&
      (|lines[k]| > |COUNTDOWN_PREFIX + t| ==> lines[k][|COUNTDOWN_PREFIX + t|] == ':')
  {
    var line := lines[k];
    var f := FindFirst(lines, IsCountdownLine);
    assert f == Some(k);
    CountdownHasTwoFields(line);
    SplitFieldsFree(line, ':');
    JoinSplit(line, ':');
    var parts := Split(line, ':');
    var t := parts[1];
    JoinCons(parts[0], parts[1..], ':');
    assert parts[1..] == [t] + parts[2..];
    if |parts| > 2 {
      JoinCons(t, parts[2..], ':');
      assert line == "COUNTDOWN" + [':'] + (t + [':'] + Join(parts[2..], ':'));
      assert line == COUNTDOWN_PREFIX + t + ([':'] + Join(parts[2..], ':'));
    } else {
      assert parts[1..] == [t];
      assert line == COUNTDOWN_PREFIX + t;
    }
  }

  /** A line of the form "COUNTDOWN:" + t + more, with no colon in t and more empty or starting with a colon, shows t. */
  lemma CountdownOfLine(t: string, more: string)
    requires ':' !in t
    requires more == [] || more[0] == ':'
    ensures CountdownText([COUNTDOWN_PREFIX + t + more]) == Some(t)
  {
    var line := COUNTDOWN_PREFIX + t + more;
    assert line == "COUNTDOWN" + [':'] + (t + more);
    SplitAtSeparator("COUNTDOWN", t + more, ':');
    FirstFieldIs(t, more, ':');
    assert line[..|COUNTDOWN_PREFIX|] == COUNTDOWN_PREFIX;
    assert FindFirst([line], IsCountdownLine) == Some(0);
  }

  /** A separator-free field followed by the separator is split off whole. */
  lemma SplitAtSeparator(a: string, rest: string, sep: char)
    requires sep !in a
    ensures Split(a + [sep] + rest, sep) == [a] + Split(rest, sep)
  {
    assert a + [sep] + rest == a + ([sep] + rest);
    SplitPrefix(a, [sep] + rest, sep);
    assert ([sep] + rest)[1..] == rest;
    assert a + "" == a;
  }

  /** A separator-free text followed by nothing or by a separator is the first field. */
  lemma FirstFieldIs(t: string, more: string, sep: char)
    requires sep !in t
    requires more == [] || more[0] == sep
    ensures Split(t + more, sep)[0] == t
  {
    SplitPrefix(t, more, sep);
    if more != [] {
      assert more == [sep] + more[1..];
    }
    assert t + "" == t;
  }


  /** The sequence line: neither a ROUND nor a COUNTDOWN line, with a digit, and a space or "[[". */
  predicate IsSequenceLine(line: string)
  {
    !StartsWith(line, "ROUND") && !StartsWith(line, "COUNTDOWN") && HasDigit(line) &&
    (' ' in line || HasPair(line, '['))
  }

  /** overlayLines.find(...) with the sequence-line test. */
  function SequenceLine(lines: seq<string>): (r: Option<string>)
    ensures r.Some? <==> exists k :: 0 <= k < |lines| && IsSequenceLine(lines[k])
    ensures r.Some? ==> r.value != [] && IsSequenceLine(r.value)
    ensures r.Some? ==>
      exists k :: 0 <= k < |lines| && lines[k] == r.value && (forall j :: 0 <= j < k ==> !IsSequenceLine(lines[j]))
  {
    match FindFirst(lines, IsSequenceLine)
    case None => None
    case Some(k) => Some(lines[k])
  }

  // ---------------------------------------------------------------- wrapping

  /** sequenceLine.replace(/ /g, "-"): every space becomes a dash, nothing else changes. */
  function Dashed(s: string): (r: string)
    ensures |r| == |s| && ' ' !in r
    ensures forall i :: 0 <= i < |s| && s[i] != ' ' ==> r[i] == s[i]
    ensures forall i :: 0 <= i < |s| && s[i] == ' ' ==> r[i] == '-'
  {
    seq(|s|, i requires 0 <= i < |s| => if s[i] == ' ' then '-' else s[i])
  }

  /** s.replace(/\[\[|\]\]/g, ""): every "[[" and "]]" met scanning from the left is dropped. */
  function StripBrackets(s: string): (r: string)
    ensures |r| <= |s|
    decreases |s|
  {
    if |s| >= 2 && ((s[0] == '[' && s[1] == '[') || (s[0] == ']' && s[1] == ']')) then StripBrackets(s[2..])
    else if s == [] then []
    else [s[0]] + StripBrackets(s[1..])
  }

  /** Text without brackets is measured as it is. */
  lemma {:induction false} StripBracketsKeepsPlainText(s: string)
    requires '[' !in s && ']' !in s
    ensures StripBrackets(s) == s
    decreases |s|
  {
    if s != [] {
      assert s[0] in s;
      assert forall c :: c in s[1..] ==> c in s;
      StripBracketsKeepsPlainText(s[1..]);
    }
  }

  /** The tokens the sequence is wrapped at: sequenceWithDashes.split("-"). */
  function SequenceItems(line: string): (items: seq<string>)
    ensures |items| >= 1
  {
    Split(Dashed(line), '-')
  }

  /**
   * One iteration of the wrapping loop for token `item` at position i: the
   * line it pushes, if any, and the new current line. A token that would push
   * the current line past maxWidth starts a new line, unless the current line
   * is still empty.
   */
  function WrapStep(current: string, i: nat, item: string, width: string -> real, maxWidth: real): (step: (Option<string>, string))
  {
    var separator := if i > 0 then "-" else "";
    var testLine := if current != "" then current + separator + item else item;
    if width(StripBrackets(testLine)) > maxWidth && current != "" then (Some(current), item)
    else (None, testLine)
  }

  /** The lines the loop pushes from token i on, `current` being the line under construction. */
  function WrapFrom(items: seq<string>, i: nat, current: string, width: string -> real, maxWidth: real): seq<string>
    requires i <= |items|
    decreases |items| - i
  {
    if i == |items| then (if current != "" then [current] else [])
    else
      var step := WrapStep(current, i, items[i], width, maxWidth);
      (if step.0.Some? then [step.0.value] else []) + WrapFrom(items, i + 1, step.1, width, maxWidth)
  }

  /** wrappedSeqLines for the tokens `items` */
  function Wrap(items: seq<string>, width: string -> real, maxWidth: real): seq<string>
  {
    WrapFrom(items, 0, "", width, maxWidth)
  }

  /** The greedy wrap loop of drawFrame. */
  method WrapSequence(sequenceLine: string, width: string -> real, maxWidth: real) returns (wrapped: seq<string>)
    ensures wrapped == Wrap(SequenceItems(sequenceLine), width, maxWidth)
  {
    var sequenceWithDashes := Dashed(sequenceLine);
    var sequenceItems := Split(sequenceWithDashes, '-');
    wrapped := [];
    var currentLine := "";
    for i := 0 to |sequenceItems|
      invariant wrapped + WrapFrom(sequenceItems, i, currentLine, width, maxWidth) == Wrap(sequenceItems, width, maxWidth)
    {
      var item := sequenceItems[i];
      var separator := if i > 0 then "-" else "";
      var testLine := if currentLine != "" then currentLine + separator + item else item;
      var cleanTest := StripBrackets(testLine);
      WrapLoopStep(sequenceItems, i, wrapped, currentLine, width, maxWidth);
      if width(cleanTest) > maxWidth && currentLine != "" {
        wrapped := wrapped + [currentLine];
        currentLine := item;
      } else {
        currentLine := testLine;
      }
    }
    if currentLine != "" {
      wrapped := wrapped + [currentLine];
    } else {
      assert wrapped + [] == wrapped;
    }
  }

  /** One token of the wrap loop: a pushed line moves from the lines still to come to the lines emitted. */
  lemma WrapLoopStep(items: seq<string>, i: nat, wrapped: seq<string>, current: string, width: string -> real, maxWidth: real)
    requires i < |items|
    requires wrapped + WrapFrom(items, i, current, width, maxWidth) == Wrap(items, width, maxWidth)
    ensures var step := WrapStep(current, i, items[i], width, maxWidth);
      (if step.0.Some? then wrapped + [step.0.value] else wrapped) + WrapFrom(items, i + 1, step.1, width, maxWidth) ==
      Wrap(items, width, maxWidth)
  {
    var step := WrapStep(current, i, items[i], width, maxWidth);
    var rest := WrapFrom(items, i + 1, step.1, width, maxWidth);
    if step.0.Some? {
      assert wrapped + ([step.0.value] + rest) == (wrapped + [step.0.value]) + rest;
    } else {
      assert [] + rest == rest;
    }
  }

  /** A line under construction that is empty, a single token, or fits stays so through the rest of the loop. */
  lemma {:induction false} WrapFromLinesFit(items: seq<string>, i: nat, current: string, width: string -> real, maxWidth: real)
    requires i <= |items|
    requires current == "" || current in items || width(StripBrackets(current)) <= maxWidth
    ensures forall l :: l in WrapFrom(items, i, current, width, maxWidth) ==>
      l != "" && (l in items || width(StripBrackets(l)) <= maxWidth)
    decreases |items| - i
  {
    if i < |items| {
      var step := WrapStep(current, i, items[i], width, maxWidth);
      WrapFromLinesFit(items, i + 1, step.1, width, maxWidth);
    }
  }

  /** No wrapped line is empty, and each is a single token or fits in maxWidth once the brackets are removed. */
  lemma WrapLinesFit(items: seq<string>, width: string -> real, maxWidth: real)
    ensures forall l :: l in Wrap(items, width, maxWidth) ==>
      l != "" && (l in items || width(StripBrackets(l)) <= maxWidth)
  {
    WrapFromLinesFit(items, 0, "", width, maxWidth);
  }

  lemma JoinMerge(a: string, b: string, rest: seq<string>, sep: char)
    ensures Join([a + [sep] + b] + rest, sep) == Join([a, b] + rest, sep)
  {
    if |rest| >= 1 {
      JoinCons(a + [sep] + b, rest, sep);
      assert [a, b] + rest == [a] + ([b] + rest);
      JoinCons(a, [b] + rest, sep);
      JoinCons(b, rest, sep);
    } else {
      assert [a + [sep] + b] + rest == [a + [sep] + b];
      assert [a, b] + rest == [a, b];
      JoinCons(a, [b], sep);
    }
  }

  /** A non-empty line under construction is pushed sooner or later. */
  lemma {:induction false} WrapFromNonEmpty(items: seq<string>, i: nat, current: string, width: string -> real, maxWidth: real)
    requires i <= |items| && current != ""
    ensures |WrapFrom(items, i, current, width, maxWidth)| >= 1
    decreases |items| - i
  {
    if i < |items| {
      var step := WrapStep(current, i, items[i], width, maxWidth);
      if step.0.None? {
        WrapFromNonEmpty(items, i + 1, step.1, width, maxWidth);
      }
    }
  }

  lemma JoinAfterPush(current: string, item: string, later: seq<string>, rest: seq<string>)
    requires |later| >= 1
    requires Join(later, '-') == Join([item] + rest, '-')
    ensures Join([current] + later, '-') == Join([current] + ([item] + rest), '-')
  {
    JoinCons(current, later, '-');
    JoinCons(current, [item] + rest, '-');
  }

  lemma JoinAfterExtend(current: string, item: string, later: seq<string>, rest: seq<string>)
    requires Join(later, '-') == Join([current + ['-'] + item] + rest, '-')
    ensures Join(later, '-') == Join([current] + ([item] + rest), '-')
  {
    JoinMerge(current, item, rest, '-');
    assert [current, item] + rest == [current] + ([item] + rest);
  }

  /** From token i on, with a non-empty current line, the pushed lines join to the current line and the remaining tokens. */
  lemma {:induction false} WrapFromJoin(items: seq<string>, i: nat, current: string, width: string -> real, maxWidth: real)
    requires 1 <= i <= |items| && current != ""
    requires forall k :: 0 <= k < |items| ==> items[k] != ""
    ensures Join(WrapFrom(items, i, current, width, maxWidth), '-') == Join([current] + items[i..], '-')
    decreases |items| - i
  {
    if i == |items| {
      assert [current] + items[i..] == [current];
    } else {
      var next := WrapStep(current, i, items[i], width, maxWidth).1;
      assert next != "";
      WrapFromJoin(items, i + 1, next, width, maxWidth);
      WrapJoinStep(items, i, current, width, maxWidth);
    }
  }

  /** One iteration of the loop keeps the join of what is pushed from then on. */
  lemma WrapJoinStep(items: seq<string>, i: nat, current: string, width: string -> real, maxWidth: real)
    requires 1 <= i < |items| && current != "" && items[i] != ""
    requires var next := WrapStep(current, i, items[i], width, maxWidth).1;
      Join(WrapFrom(items, i + 1, next, width, maxWidth), '-') == Join([next] + items[i + 1..], '-')
    ensures Join(WrapFrom(items, i, current, width, maxWidth), '-') == Join([current] + items[i..], '-')
  {
    var item := items[i];
    var rest := items[i + 1..];
    var step := WrapStep(current, i, item, width, maxWidth);
    var later := WrapFrom(items, i + 1, step.1, width, maxWidth);
    assert items[i..] == [item] + rest;
    if step.0.Some? {
      assert WrapFrom(items, i, current, width, maxWidth) == [current] + later;
      WrapFromNonEmpty(items, i + 1, item, width, maxWidth);
      JoinAfterPush(current, item, later, rest);
    } else {
      assert WrapFrom(items, i, current, width, maxWidth) == [] + later;
      assert [] + later == later;
      JoinAfterExtend(current, item, later, rest);
    }
  }

  /** The first token always starts the first line. */
  lemma WrapStart(items: seq<string>, width: string -> real, maxWidth: real)
    requires |items| >= 1
    ensures Wrap(items, width, maxWidth) == WrapFrom(items, 1, items[0], width, maxWidth)
  {
    var step := WrapStep("", 0, items[0], width, maxWidth);
    assert step == (None, items[0]);
    var w := WrapFrom(items, 1, items[0], width, maxWidth);
    assert Wrap(items, width, maxWidth) == [] + w;
    assert [] + w == w;
  }

  /** When no token is empty, joining the wrapped lines with "-" gives back the dash-joined tokens. */
  lemma WrapJoin(items: seq<string>, width: string -> real, maxWidth: real)
    requires |items| >= 1
    requires forall k :: 0 <= k < |items| ==> items[k] != ""
    ensures Join(Wrap(items, width, maxWidth), '-') == Join(items, '-')
  {
    WrapStart(items, width, maxWidth);
    WrapFromJoin(items, 1, items[0], width, maxWidth);
    assert [items[0]] + items[1..] == items;
  }

  /** ... and that is the sequence line with its spaces turned into dashes. */
  lemma WrapJoinsToDashedLine(line: string, width: string -> real, maxWidth: real)
    requires forall k :: 0 <= k < |SequenceItems(line)| ==> SequenceItems(line)[k] != ""
    ensures Join(Wrap(SequenceItems(line), width, maxWidth), '-') == Dashed(line)
  {
    WrapJoin(SequenceItems(line), width, maxWidth);
    JoinSplit(Dashed(line), '-');
  }

  /** wrappedSeqLines as drawFrame computes it: empty while the fail banner is shown or when no line qualifies. */
  function SequenceLines(lines: seq<string>, failShown: bool, width: string -> real, maxWidth: real): (r: seq<string>)
    ensures failShown ==> r == []
    ensures SequenceLine(lines).None? ==> r == []
    ensures !failShown && SequenceLine(lines).Some? ==> r == Wrap(SequenceItems(SequenceLine(lines).value), width, maxWidth)
    ensures forall l :: l in r ==>
      (l != "" && SequenceLine(lines).Some? &&
       (l in SequenceItems(SequenceLine(lines).value) || width(StripBrackets(l)) <= maxWidth))
  {
    if failShown then []
    else match SequenceLine(lines)
      case None => []
      case Some(line) =>
        WrapLinesFit(SequenceItems(line), width, maxWidth);
        Wrap(SequenceItems(line), width, maxWidth)
  }

  // ------------------------------------------------------- highlight segments

  /** The characters the regular-expression "." does not match. */
  predicate IsLineTerminator(c: char)
  {
    c == '\n' || c == '\r' || c == '\U{2028}' || c == '\U{2029}'
  }

  predicate NoLineTerminator(s: string)
  {
    forall j :: 0 <= j < |s| ==> !IsLineTerminator(s[j])
  }

  /** Where the lazy ".*?" that starts at k stops: the first "]]" from k on with no line terminator before it. */
  function CloseAt(s: string, k: nat): (r: Option<nat>)
    ensures r.Some? ==> k <= r.value && r.value + 2 <= |s| && s[r.value] == ']' && s[r.value + 1] == ']'
    decreases |s| - k
  {
    if k + 2 <= |s| && s[k] == ']' && s[k + 1] == ']' then Some(k)
    else if k < |s| && !IsLineTerminator(s[k]) then CloseAt(s, k + 1)
    else None
  }

  /** A "]]" reachable from k without crossing a line terminator is found, there or earlier. */
  lemma {:induction false} CloseAtFinds(s: string, k: nat, q: nat)
    requires k <= q && q + 2 <= |s| && s[q] == ']' && s[q + 1] == ']'
    requires forall j :: k <= j < q ==> !IsLineTerminator(s[j])
    ensures CloseAt(s, k).Some? && CloseAt(s, k).value <= q
    decreases q - k
  {
    if k < q && !(s[k] == ']' && s[k + 1] == ']') {
      CloseAtFinds(s, k + 1, q);
    }
  }

  /** The end of a match of /\[\[.*?\]\]/ that starts at p, if one does. */
  function MatchEnd(s: string, p: nat): (r: Option<nat>)
    ensures r.Some? ==> p + 4 <= r.value <= |s|
    ensures r.Some? ==> s[p] == '[' && s[p + 1] == '[' && s[r.value - 2] == ']' && s[r.value - 1] == ']'
  {
    if p + 2 <= |s| && s[p] == '[' && s[p + 1] == '[' then
      match CloseAt(s, p + 2)
      case None => None
      case Some(q) => Some(q + 2)
    else None
  }

  /** line.split(/(\[\[.*?\]\]/g), scanning from p, the current field having started at `start`. */
  function SplitFrom(s: string, start: nat, p: nat): (parts: seq<string>)
    requires start <= p <= |s|
    ensures |parts| % 2 == 1
    decreases |s| - p
  {
    if p == |s| then [s[start..]]
    else match MatchEnd(s, p)
      case Some(e) => [s[start..p], s[p..e]] + SplitFrom(s, e, e)
      case None => SplitFrom(s, start, p + 1)
  }

  /** The segments of a line: the plain fields and, between them, the matched "[[...]]" tokens. */
  function SplitHighlights(line: string): seq<string>
  {
    SplitFrom(line, 0, 0)
  }

  /** The concatenation of a sequence of strings. */
  function Concat(parts: seq<string>): string
  {
    if parts == [] then "" else Concat(parts[..|parts| - 1]) + parts[|parts| - 1]
  }

  lemma {:induction false} ConcatAppend(a: seq<string>, b: seq<string>)
    ensures Concat(a + b) == Concat(a) + Concat(b)
    decreases |b|
  {
    if b == [] {
      assert a + b == a;
    } else {
      var b' := b[..|b| - 1];
      var last := b[|b| - 1];
      ConcatAppend(a, b');
      assert (a + b)[..|a + b| - 1] == a + b' && (a + b)[|a + b| - 1] == last;
      assert Concat(a + b) == Concat(a + b') + last;
      assert Concat(b) == Concat(b') + last;
    }
  }

  lemma ConcatPair(x: string, y: string)
    ensures Concat([x, y]) == x + y
  {
    assert [x, y][..1] == [x];
    assert [x][..0] == [];
    assert Concat([x]) == x;
  }

  /** The segments concatenate back to the text they were split from. */
  lemma {:induction false} SplitFromConcat(s: string, start: nat, p: nat)
    requires start <= p <= |s|
    ensures Concat(SplitFrom(s, start, p)) == s[start..]
    decreases |s| - p
  {
    if p == |s| {
      assert [s[start..]][..0] == [];
    } else {
      match MatchEnd(s, p)
      case Some(e) =>
        SplitFromConcat(s, e, e);
        ConcatAppend([s[start..p], s[p..e]], SplitFrom(s, e, e));
        ConcatPair(s[start..p], s[p..e]);
        assert s[start..p] + s[p..e] + s[e..] == s[start..];
      case None =>
        SplitFromConcat(s, start, p + 1);
    }
  }

  /** A "[[...]]" token: starts with "[[", ends with "]]". */
  predicate IsMarked(t: string)
  {
    StartsWith(t, "[[") && EndsWith(t, "]]")
  }

  /** A marked token has room for both brackets. */
  lemma MarkedIsLong(t: string)
    requires IsMarked(t)
    ensures |t| >= 4
  {
    assert t[..2] == "[[" && t[|t| - 2..] == "]]";
    assert t[0] == '[' && t[1] == '[';
    assert t[|t| - 2] == ']' && t[|t| - 1] == ']';
  }

  /** A marked field of a text without line terminators is itself a match. */
  lemma MarkedFieldMatches(s: string, start: nat, p: nat)
    requires start <= p <= |s| && NoLineTerminator(s)
    requires IsMarked(s[start..p])
    ensures start < p && MatchEnd(s, start).Some?
  {
    var a := s[start..p];
    MarkedIsLong(a);
    assert a[0] == s[start] && a[1] == s[start + 1];
    assert a[|a| - 2] == s[p - 2] && a[|a| - 1] == s[p - 1];
    CloseAtFinds(s, start + 2, p - 2);
  }

  /** A field in which no match starts is not itself marked, when the text has no line terminator. */
  lemma PlainFieldIsUnmarked(s: string, start: nat, p: nat)
    requires start <= p <= |s| && NoLineTerminator(s)
    requires forall j :: start <= j < p ==> MatchEnd(s, j).None?
    ensures !IsMarked(s[start..p])
  {
    if IsMarked(s[start..p]) {
      MarkedFieldMatches(s, start, p);
      assert false;
    }
  }

  /** The segments alternate: fields at even positions, matched tokens at odd ones. */
  lemma SplitFromAlternates(s: string, start: nat, p: nat)
    requires start <= p <= |s|
    requires forall j :: start <= j < p ==> MatchEnd(s, j).None?
    ensures forall k :: 0 <= k < |SplitFrom(s, start, p)| && k % 2 == 1 ==> IsMarked(SplitFrom(s, start, p)[k])
    ensures NoLineTerminator(s) ==>
      forall k :: 0 <= k < |SplitFrom(s, start, p)| && k % 2 == 0 ==> !IsMarked(SplitFrom(s, start, p)[k])
  {
    TokensAtOdd(s, start, p);
    if NoLineTerminator(s) {
      FieldsAtEven(s, start, p);
    }
  }

  /** Every part at an odd position is a matched token. */
  lemma {:induction false} TokensAtOdd(s: string, start: nat, p: nat)
    requires start <= p <= |s|
    ensures forall k :: 0 <= k < |SplitFrom(s, start, p)| && k % 2 == 1 ==> IsMarked(SplitFrom(s, start, p)[k])
    decreases |s| - p
  {
    if p < |s| {
      match MatchEnd(s, p)
      case Some(e) =>
        TokensAtOdd(s, e, e);
        MatchIsMarked(s, p);
        TokensCons(s[start..p], s[p..e], SplitFrom(s, e, e));
      case None =>
        TokensAtOdd(s, start, p + 1);
    }
  }

  /** No match starts in s[start..p]. */
  predicate NoMatchBetween(s: string, start: nat, p: nat)
  {
    forall j :: start <= j < p ==> MatchEnd(s, j).None?
  }

  /** A position where no match starts extends a match-free stretch. */
  lemma NoMatchExtends(s: string, start: nat, p: nat)
    requires NoMatchBetween(s, start, p) && MatchEnd(s, p).None?
    ensures NoMatchBetween(s, start, p + 1)
  {
  }

  /** On a text without line terminators every part at an even position is unmarked. */
  lemma {:induction false} FieldsAtEven(s: string, start: nat, p: nat)
    requires start <= p <= |s| && NoLineTerminator(s)
    requires NoMatchBetween(s, start, p)
    ensures forall k :: 0 <= k < |SplitFrom(s, start, p)| && k % 2 == 0 ==> !IsMarked(SplitFrom(s, start, p)[k])
    decreases |s| - p
  {
    if p == |s| {
      PlainFieldIsUnmarked(s, start, p);
    } else {
      match MatchEnd(s, p)
      case Some(e) =>
        FieldsAtEven(s, e, e);
        PlainFieldIsUnmarked(s, start, p);
        FieldsCons(s[start..p], s[p..e], SplitFrom(s, e, e));
      case None =>
        NoMatchExtends(s, start, p);
        FieldsAtEven(s, start, p + 1);
    }
  }

  /** A match is a marked token. */
  lemma MatchIsMarked(s: string, p: nat)
    requires MatchEnd(s, p).Some?
    ensures IsMarked(s[p..MatchEnd(s, p).value])
  {
    var token := s[p..MatchEnd(s, p).value];
    assert token[..2] == "[[" && token[|token| - 2..] == "]]";
  }

  /** A token in front of parts with tokens at odd positions keeps them there. */
  lemma TokensCons(field: string, token: string, rest: seq<string>)
    requires IsMarked(token)
    requires forall k :: 0 <= k < |rest| && k % 2 == 1 ==> IsMarked(rest[k])
    ensures forall k :: 0 <= k < |[field, token] + rest| && k % 2 == 1 ==> IsMarked(([field, token] + rest)[k])
  {
    var parts := [field, token] + rest;
    forall k | 2 <= k < |parts|
      ensures parts[k] == rest[k - 2] && (k % 2 == 1 <==> (k - 2) % 2 == 1)
    {
    }
  }

  /** An unmarked field in front of parts with unmarked even positions keeps them unmarked. */
  lemma FieldsCons(field: string, token: string, rest: seq<string>)
    requires !IsMarked(field)
    requires forall k :: 0 <= k < |rest| && k % 2 == 0 ==> !IsMarked(rest[k])
    ensures forall k :: 0 <= k < |[field, token] + rest| && k % 2 == 0 ==> !IsMarked(([field, token] + rest)[k])
  {
    var parts := [field, token] + rest;
    forall k | 2 <= k < |parts|
      ensures parts[k] == rest[k - 2] && (k % 2 == 0 <==> (k - 2) % 2 == 0)
    {
    }
  }

  /** A drawn segment: plain text, or the text inside "[[" and "]]" drawn highlighted. */
  datatype Piece = Plain(text: string) | Highlighted(text: string)

  /** The per-segment test of the drawing loop, with segment.slice(2, -2). */
  function Classify(segment: string): Piece
  {
    if IsMarked(segment) then Highlighted(if |segment| >= 4 then segment[2..|segment| - 2] else "")
    else Plain(segment)
  }

  /** The source text a piece was drawn from. */
  function Restore(piece: Piece): string
  {
    match piece
    case Plain(t) => t
    case Highlighted(t) => "[[" + t + "]]"
  }

  lemma RestoreClassify(segment: string)
    ensures Restore(Classify(segment)) == segment
  {
    if IsMarked(segment) {
      MarkedIsLong(segment);
      assert segment == segment[..2] + segment[2..|segment| - 2] + segment[|segment| - 2..];
    }
  }

  /** The pieces drawn for a list of segments: empty segments are skipped. */
  function PiecesOf(parts: seq<string>): seq<Piece>
  {
    if parts == [] then []
    else PiecesOf(parts[..|parts| - 1]) + (if parts[|parts| - 1] == "" then [] else [Classify(parts[|parts| - 1])])
  }

  function Segments(line: string): seq<Piece>
  {
    PiecesOf(SplitHighlights(line))
  }

  function RestoreAll(pieces: seq<Piece>): string
  {
    if pieces == [] then "" else RestoreAll(pieces[..|pieces| - 1]) + Restore(pieces[|pieces| - 1])
  }

  lemma {:induction false} RestorePieces(parts: seq<string>)
    ensures RestoreAll(PiecesOf(parts)) == Concat(parts)
    decreases |parts|
  {
    if parts != [] {
      var init := parts[..|parts| - 1];
      var last := parts[|parts| - 1];
      RestorePieces(init);
      if last == "" {
        assert PiecesOf(init) + [] == PiecesOf(init);
      } else {
        RestoreClassify(last);
        assert (PiecesOf(init) + [Classify(last)])[..|PiecesOf(init)|] == PiecesOf(init);
      }
    }
  }

  /** Putting the brackets back around the highlighted pieces and concatenating gives the line. */
  lemma SegmentsRejoin(line: string)
    ensures RestoreAll(Segments(line)) == line
  {
    RestorePieces(SplitHighlights(line));
    SplitFromConcat(line, 0, 0);
  }

  /**
   * On a line without line terminators a segment is drawn highlighted exactly
   * when it is a matched "[[t]]" token, and it is drawn as t.
   */
  lemma HighlightedExactlyTheTokens(line: string)
    requires NoLineTerminator(line)
    ensures forall k :: 0 <= k < |SplitHighlights(line)| ==>
      (Classify(SplitHighlights(line)[k]).Highlighted? <==> k % 2 == 1)
    ensures forall k :: 0 <= k < |SplitHighlights(line)| && k % 2 == 1 ==>
      "[[" + Classify(SplitHighlights(line)[k]).text + "]]" == SplitHighlights(line)[k]
  {
    var parts := SplitHighlights(line);
    SplitFromAlternates(line, 0, 0);
    forall k | 0 <= k < |parts| && k % 2 == 1
      ensures "[[" + Classify(parts[k]).text + "]]" == parts[k]
    {
      RestoreClassify(parts[k]);
    }
  }

  /** Summed widths of the pieces' texts. */
  function TotalWidth(pieces: seq<Piece>, width: string -> real): real
  {
    if pieces == [] then 0.0 else TotalWidth(pieces[..|pieces| - 1], width) + width(pieces[|pieces| - 1].text)
  }

  lemma PiecesStep(parts: seq<string>, i: nat)
    requires i < |parts|
    ensures PiecesOf(parts[..i + 1]) == PiecesOf(parts[..i]) + (if parts[i] == "" then [] else [Classify(parts[i])])
    ensures parts[i] == "" ==> PiecesOf(parts[..i + 1]) == PiecesOf(parts[..i])
  {
    assert parts[..i + 1][..i] == parts[..i];
    assert PiecesOf(parts[..i]) + [] == PiecesOf(parts[..i]);
  }

  lemma TotalWidthStep(pieces: seq<Piece>, piece: Piece, width: string -> real)
    ensures TotalWidth(pieces + [piece], width) == TotalWidth(pieces, width) + width(piece.text)
    ensures forall k :: 0 <= k <= |pieces| ==> (pieces + [piece])[..k] == pieces[..k]
  {
    assert (pieces + [piece])[..|pieces|] == pieces;
  }

  /** Where a piece is drawn: its left edge, and the centre passed to fillText. */
  datatype Placement = Placement(piece: Piece, left: real, center: real)

  /** Each piece placed at the start plus the widths of the pieces before it, centred on its own width. */
  predicate LaidOut(draws: seq<Placement>, pieces: seq<Piece>, start: real, width: string -> real)
  {
    |draws| == |pieces| &&
    forall k :: 0 <= k < |draws| ==>
      draws[k].piece == pieces[k] &&
      draws[k].left == start + TotalWidth(pieces[..k], width) &&
      draws[k].center == draws[k].left + width(draws[k].piece.text) / 2.0
  }

  /** The placements the segment walk produces: each piece after the ones before it, centred on its own width. */
  function Layout(pieces: seq<Piece>, start: real, width: string -> real): (draws: seq<Placement>)
    ensures |draws| == |pieces|
    decreases |pieces|
  {
    if pieces == [] then []
    else
      var left := start + TotalWidth(pieces[..|pieces| - 1], width);
      var piece := pieces[|pieces| - 1];
      Layout(pieces[..|pieces| - 1], start, width) + [Placement(piece, left, left + width(piece.text) / 2.0)]
  }

  /** The layout places every piece at the start plus the widths of the pieces before it. */
  lemma {:induction false} LayoutIsLaidOut(pieces: seq<Piece>, start: real, width: string -> real)
    ensures LaidOut(Layout(pieces, start, width), pieces, start, width)
    decreases |pieces|
  {
    if pieces != [] {
      var init := pieces[..|pieces| - 1];
      LayoutIsLaidOut(init, start, width);
      LayoutExtends(init, pieces[|pieces| - 1], start, width);
      assert init + [pieces[|pieces| - 1]] == pieces;
    }
  }

  lemma LayoutExtends(init: seq<Piece>, piece: Piece, start: real, width: string -> real)
    requires LaidOut(Layout(init, start, width), init, start, width)
    ensures LaidOut(Layout(init + [piece], start, width), init + [piece], start, width)
  {
    var pieces := init + [piece];
    assert pieces[..|pieces| - 1] == init;
    var draws := Layout(pieces, start, width);
    forall k | 0 <= k < |draws|
      ensures draws[k].piece == pieces[k] && draws[k].left == start + TotalWidth(pieces[..k], width)
    {
      if k < |init| {
        assert pieces[..k] == init[..k];
      }
    }
  }

  /** Drawing one more piece at the current x extends the layout of the pieces so far. */
  lemma LayoutStep(pieces: seq<Piece>, piece: Piece, draws: seq<Placement>, currentX: real, start: real, width: string -> real)
    requires currentX == start + TotalWidth(pieces, width)
    requires draws == Layout(pieces, start, width)
    ensures currentX + width(piece.text) == start + TotalWidth(pieces + [piece], width)
    ensures draws + [Placement(piece, currentX, currentX + width(piece.text) / 2.0)] == Layout(pieces + [piece], start, width)
  {
    TotalWidthStep(pieces, piece, width);
  }

  /**
   * The segment drawing of drawFrame for a line containing "[[" and "]]":
   * the pieces are laid out left to right from the left edge of the centred
   * clean line, each starting where the previous one ended.
   */
  method DrawSegments(line: string, x: real, width: string -> real) returns (draws: seq<Placement>)
    requires HasPair(line, '[') && HasPair(line, ']')
    ensures draws == Layout(Segments(line), x - width(StripBrackets(line)) / 2.0, width)
  {
    var segments := SplitHighlights(line);
    var cleanLine := StripBrackets(line);
    var lineWidth := width(cleanLine);
    assert PiecesOf(segments) == Segments(line);
    draws := DrawPieces(segments, x - lineWidth / 2.0, width);
  }

  /** The forEach over the segments, from the given left edge: empty segments draw nothing. */
  method DrawPieces(segments: seq<string>, start: real, width: string -> real) returns (draws: seq<Placement>)
    ensures draws == Layout(PiecesOf(segments), start, width)
  {
    var currentX := start;
    draws := [];
    ghost var pieces: seq<Piece> := [];
    for i := 0 to |segments|
      invariant pieces == PiecesOf(segments[..i])
      invariant currentX == start + TotalWidth(pieces, width)
      invariant draws == Layout(pieces, start, width)
    {
      var segment := segments[i];
      PiecesStep(segments, i);
      if segment == "" {
        continue;
      }
      var piece := Classify(segment);
      LayoutStep(pieces, piece, draws, currentX, start, width);
      draws := draws + [Placement(piece, currentX, currentX + width(piece.text) / 2.0)];
      currentX := currentX + width(piece.text);
      pieces := pieces + [piece];
    }
    assert segments[..|segments|] == segments;
  }

  /** Laid-out pieces abut: each starts where the previous one ends. */
  lemma LaidOutAbuts(draws: seq<Placement>, pieces: seq<Piece>, start: real, width: string -> real)
    requires LaidOut(draws, pieces, start, width)
    ensures forall k :: 0 <= k < |draws| - 1 ==> draws[k + 1].left == draws[k].left + width(draws[k].piece.text)
  {
    forall k | 0 <= k < |draws| - 1
      ensures draws[k + 1].left == draws[k].left + width(draws[k].piece.text)
    {
      assert pieces[..k + 1][..k] == pieces[..k];
    }
  }
}
