/**
 * SubRip caption rendering (`_srt_time` and `_write_srt` of app/pipeline.py),
 * together with a reader for the same format that the round-trip lemmas use.
 * Times are whole milliseconds: the float seconds Whisper reports are assumed
 * already truncated to milliseconds.
 */
module Srt {
  import opened Wrappers
  import opened Text

  /** One recognised stretch of speech; `originalText` is the `original_text`
      key, absent (`None`) until translation snapshots the source text. */
  datatype Segment = Segment(start: nat, end: nat, text: string, originalText: Option<string>)

  /** The four fields of an `HH:MM:SS,mmm` timestamp. */
  datatype Clock = Clock(hours: nat, minutes: nat, seconds: nat, millis: nat)

  /** Split a millisecond count with floor division and remainder, as `_srt_time` does. */
  function ClockOf(ms: nat): (c: Clock)
    ensures c.minutes < 60 && c.seconds < 60 && c.millis < 1000
    ensures c.hours * 3600000 + c.minutes * 60000 + c.seconds * 1000 + c.millis == ms
  {
    var c := Clock(ms / 3600000, (ms % 3600000) / 60000, (ms % 60000) / 1000, ms % 1000);
    MinuteRemainder(ms);
    c
  }

  /** Within an hour the minute remainder is the remainder of the whole count. */
  lemma MinuteRemainder(ms: nat)
    ensures ms % 3600000 == (ms % 3600000) / 60000 * 60000 + ms % 60000
  {
    var q, r := ms / 3600000, ms % 3600000;
    var a, b := r / 60000, r % 60000;
    assert ms == (q * 60 + a) * 60000 + b;
  }

  /** `_srt_time`: hours padded to at least two digits (more when needed), minutes and
      seconds to two, milliseconds to three. */
  function SrtTime(ms: nat): string {
    var c := ClockOf(ms);
    Join([ZeroPad(c.hours, 2), ZeroPad(c.minutes, 2), ZeroPad(c.seconds, 2) + "," + ZeroPad(c.millis, 3)], ":")
  }

  /** Read an `H…H:MM:SS,mmm` timestamp back into milliseconds. */
  function ParseTime(t: string): Option<nat> {
    var parts := Split(t, ':');
    if |parts| != 3 then None
    else
      var secs := Split(parts[2], ',');
      if |secs| != 2 then None
      else
        var hh, mm, ss, fff := parts[0], parts[1], secs[0], secs[1];
        if && IsDigits(hh) && |hh| >= 2
           && IsDigits(mm) && |mm| == 2 && DigitsValue(mm) < 60
           && IsDigits(ss) && |ss| == 2 && DigitsValue(ss) < 60
           && IsDigits(fff) && |fff| == 3
        then Some(DigitsValue(hh) * 3600000 + DigitsValue(mm) * 60000 + DigitsValue(ss) * 1000 + DigitsValue(fff))
        else None
  }

  /** The four padded fields of a timestamp are digit strings of the widths the format
      expects, and each reads back as its clock field. */
  lemma PaddedFields(ms: nat)
    ensures var c := ClockOf(ms);
      var h, m, s, f := ZeroPad(c.hours, 2), ZeroPad(c.minutes, 2), ZeroPad(c.seconds, 2), ZeroPad(c.millis, 3);
      && IsDigits(h) && IsDigits(m) && IsDigits(s) && IsDigits(f)
      && |h| >= 2 && |m| == 2 && |s| == 2 && |f| == 3
      && DigitsValue(h) == c.hours && DigitsValue(m) == c.minutes
      && DigitsValue(s) == c.seconds && DigitsValue(f) == c.millis
  {
    var c := ClockOf(ms);
    DecimalLength(c.minutes);
    DecimalLength(c.seconds);
    DecimalLength(c.millis);
    PaddedValue(c.hours, 2);
    PaddedValue(c.minutes, 2);
    PaddedValue(c.seconds, 2);
    PaddedValue(c.millis, 3);
  }

  /** Digit fields joined as `h:m:s,f` split back into the same fields. */
  lemma TimeFields(h: string, m: string, s: string, f: string)
    requires IsDigits(h) && IsDigits(m) && IsDigits(s) && IsDigits(f)
    ensures Split(Join([h, m, s + "," + f], ":"), ':') == [h, m, s + "," + f]
    ensures Split(s + "," + f, ',') == [s, f]
  {
    DigitsFree(h, ':');
    DigitsFree(m, ':');
    DigitsFree(s, ':');
    DigitsFree(f, ':');
    DigitsFree(s, ',');
    DigitsFree(f, ',');
    JoinFree([s, f], ",", ':');
    JoinCons(s, [f], ",");
    assert [s, f] == [s] + [f];
    SplitJoin([h, m, s + "," + f], ':');
    SplitJoin([s, f], ',');
  }

  /** Every rendered timestamp reads back as the millisecond count it came from. */
  lemma SrtTimeRoundTrip(ms: nat)
    ensures ParseTime(SrtTime(ms)) == Some(ms)
  {
    var c := ClockOf(ms);
    PaddedFields(ms);
    TimeFields(ZeroPad(c.hours, 2), ZeroPad(c.minutes, 2), ZeroPad(c.seconds, 2), ZeroPad(c.millis, 3));
  }

  /** Distinct millisecond counts never render to the same timestamp. */
  lemma SrtTimeInjective(a: nat, b: nat)
    requires SrtTime(a) == SrtTime(b)
    ensures a == b
  {
    SrtTimeRoundTrip(a);
    SrtTimeRoundTrip(b);
  }

  /** The `start --> end` line of a block. */
  function TimeRange(seg: Segment): string {
    SrtTime(seg.start) + " --> " + SrtTime(seg.end)
  }

  /** The caption block `_write_srt` emits for the segment numbered `index`. */
  function Block(index: nat, seg: Segment): string {
    Join([Decimal(index), TimeRange(seg), Strip(seg.text)], "\n") + "\n\n"
  }

  /** The blocks of `segs`, numbered consecutively from `first`, one after another. */
  function Blocks(segs: seq<Segment>, first: nat): string
    decreases |segs|
  {
    if segs == [] then "" else Block(first, segs[0]) + Blocks(segs[1..], first + 1)
  }

  /** One more segment adds its block, numbered after the others, at the end. */
  lemma {:induction false} BlocksAppend(segs: seq<Segment>, first: nat, seg: Segment)
    ensures Blocks(segs + [seg], first) == Blocks(segs, first) + Block(first + |segs|, seg)
    decreases |segs|
  {
    if segs == [] {
      assert [seg][1..] == [];
    } else {
      assert (segs + [seg])[1..] == segs[1..] + [seg];
      BlocksAppend(segs[1..], first + 1, seg);
    }
  }

  /** The blocks of one more segment of `segs` are those of one fewer plus its block. */
  lemma BlocksPrefix(segs: seq<Segment>, i: nat)
    requires i < |segs|
    ensures Blocks(segs[..i + 1], 1) == Blocks(segs[..i], 1) + Block(i + 1, segs[i])
  {
    assert segs[..i + 1] == segs[..i] + [segs[i]];
    BlocksAppend(segs[..i], 1, segs[i]);
  }

  /** The whole `.srt` file: blocks numbered from 1 in segment order. */
  function SrtDocument(segs: seq<Segment>): string {
    Blocks(segs, 1)
  }

  /** `_write_srt`: append one block per segment, in order, to the file contents. */
  method WriteSrt(segs: seq<Segment>) returns (out: string)
    ensures out == SrtDocument(segs)
  {
    out := "";
    for i := 0 to |segs|
      invariant out == Blocks(segs[..i], 1)
    {
      BlocksPrefix(segs, i);
      out := out + Block(i + 1, segs[i]);
    }
    assert segs[..|segs|] == segs;
  }

  /** One caption as a reader of the file sees it. */
  datatype Cue = Cue(index: nat, start: nat, end: nat, text: string)

  /** The line up to the first newline and what follows that newline. */
  function TakeLine(s: string): (r: Option<(string, string)>)
    ensures r.None? ==> '\n' !in s
    ensures r.Some? ==> '\n' !in r.value.0 && s == r.value.0 + "\n" + r.value.1
  {
    var i := IndexOf(s, '\n');
    if i == |s| then None
    else
      assert s == s[..i] + "\n" + s[i + 1..];
      Some((s[..i], s[i + 1..]))
  }

  lemma TakeLineOf(line: string, rest: string)
    requires '\n' !in line
    ensures TakeLine(line + "\n" + rest) == Some((line, rest))
  {
    IndexOfAfter(line, '\n', rest);
    var s := line + "\n" + rest;
    assert s[..|line|] == line;
    assert s[|line| + 1..] == rest;
  }

  /** Read a `start --> end` line. */
  function ParseRange(line: string): Option<(nat, nat)> {
    var parts := Split(line, ' ');
    if |parts| == 3 && parts[1] == "-->" then
      match (ParseTime(parts[0]), ParseTime(parts[2]))
      case (Some(a), Some(b)) => Some((a, b))
      case _ => None
    else None
  }

  lemma JoinThree(a: string, b: string, c: string, sep: string)
    ensures Join([a, b, c], sep) == a + sep + b + sep + c
  {
    JoinCons(a, [b, c], sep);
    JoinCons(b, [c], sep);
    assert [a, b, c] == [a] + [b, c];
    assert [b, c] == [b] + [c];
  }

  /** A timestamp holds only digits, `:` and `,`. */
  lemma NotInTime(ms: nat, ch: char)
    requires !IsDigit(ch) && ch != ':' && ch != ','
    ensures ch !in SrtTime(ms)
  {
    var c := ClockOf(ms);
    var h, m, s, f := ZeroPad(c.hours, 2), ZeroPad(c.minutes, 2), ZeroPad(c.seconds, 2), ZeroPad(c.millis, 3);
    PaddedFields(ms);
    DigitsFree(h, ch);
    DigitsFree(m, ch);
    DigitsFree(s, ch);
    DigitsFree(f, ch);
    JoinCons(s, [f], ",");
    assert [s, f] == [s] + [f];
    JoinFree([s, f], ",", ch);
    JoinFree([h, m, s + "," + f], ":", ch);
  }

  lemma ArrowLine(a: string, b: string)
    requires ' ' !in a && ' ' !in b
    ensures Split(a + " --> " + b, ' ') == [a, "-->", b]
  {
    JoinCons(a, ["-->", b], " ");
    JoinCons("-->", [b], " ");
    assert [a, "-->", b] == [a] + ["-->", b];
    assert ["-->", b] == ["-->"] + [b];
    assert a + " --> " + b == a + " " + ("-->" + " " + b);
    SplitJoin([a, "-->", b], ' ');
  }

  /** Every rendered range line reads back as the segment's two times. */
  lemma TimeRangeRoundTrip(seg: Segment)
    ensures ParseRange(TimeRange(seg)) == Some((seg.start, seg.end))
    ensures '\n' !in TimeRange(seg)
  {
    NotInTime(seg.start, ' ');
    NotInTime(seg.end, ' ');
    NotInTime(seg.start, '\n');
    NotInTime(seg.end, '\n');
    ArrowLine(SrtTime(seg.start), SrtTime(seg.end));
    SrtTimeRoundTrip(seg.start);
    SrtTimeRoundTrip(seg.end);
  }

  /** Read a SubRip file: index line, range line, one text line, blank line, repeated. */
  function ParseCues(s: string): Option<seq<Cue>>
    decreases |s|
  {
    if s == [] then Some([])
    else match TakeLine(s)
      case None => None
      case Some((indexLine, r1)) =>
        match TakeLine(r1)
        case None => None
        case Some((rangeLine, r2)) =>
          match TakeLine(r2)
          case None => None
          case Some((text, r3)) =>
            match TakeLine(r3)
            case None => None
            case Some((blank, r4)) =>
              if !IsDigits(indexLine) || blank != "" then None
              else match (ParseRange(rangeLine), ParseCues(r4))
                case (Some((a, b)), Some(rest)) => Some([Cue(DigitsValue(indexLine), a, b, text)] + rest)
                case _ => None
  }

  /** A block followed by more text reads as its cue followed by what that text reads as. */
  lemma ParseBlock(index: nat, range: string, text: string, rest: string)
    requires '\n' !in range && '\n' !in text
    requires ParseRange(range).Some?
    ensures ParseCues(Decimal(index) + "\n" + range + "\n" + text + "\n\n" + rest)
      == match ParseCues(rest)
         case None => None
         case Some(cues) => Some([Cue(index, ParseRange(range).value.0, ParseRange(range).value.1, text)] + cues)
  {
    var idx := Decimal(index);
    assert '\n' !in idx by { DigitsFree(idx, '\n'); }
    var r3 := "\n" + rest;
    var r2 := text + "\n" + r3;
    var r1 := range + "\n" + r2;
    var s := idx + "\n" + r1;
    assert s == idx + "\n" + range + "\n" + text + "\n\n" + rest;
    TakeLineOf(idx, r1);
    TakeLineOf(range, r2);
    TakeLineOf(text, r3);
    TakeLineOf("", rest);
    assert "" + "\n" + rest == r3;
    DecimalValue(index);
  }

  /** What a reader should recover from the blocks of `segs` numbered from `first`. */
  function CuesOf(segs: seq<Segment>, first: nat): seq<Cue>
    decreases |segs|
  {
    if segs == [] then []
    else [Cue(first, segs[0].start, segs[0].end, Strip(segs[0].text))] + CuesOf(segs[1..], first + 1)
  }

  /** Cue i carries number `first + i` and segment i's times and stripped text. */
  lemma {:induction false} CuesOfAt(segs: seq<Segment>, first: nat)
    ensures |CuesOf(segs, first)| == |segs|
    ensures forall i :: 0 <= i < |segs| ==>
      CuesOf(segs, first)[i] == Cue(first + i, segs[i].start, segs[i].end, Strip(segs[i].text))
    decreases |segs|
  {
    if segs != [] {
      CuesOfAt(segs[1..], first + 1);
    }
  }

  predicate SingleLine(seg: Segment) {
    '\n' !in Strip(seg.text)
  }

  /** A rendered block followed by more text reads as the segment's cue followed by what
      that text reads as. */
  lemma BlockRead(index: nat, seg: Segment, rest: string)
    requires SingleLine(seg)
    ensures ParseCues(Block(index, seg) + rest)
      == match ParseCues(rest)
         case None => None
         case Some(cues) => Some([Cue(index, seg.start, seg.end, Strip(seg.text))] + cues)
  {
    TimeRangeRoundTrip(seg);
    ParseBlock(index, TimeRange(seg), Strip(seg.text), rest);
    JoinThree(Decimal(index), TimeRange(seg), Strip(seg.text), "\n");
  }

  lemma {:induction false} BlocksRoundTrip(segs: seq<Segment>, first: nat)
    requires forall k :: 0 <= k < |segs| ==> SingleLine(segs[k])
    ensures ParseCues(Blocks(segs, first)) == Some(CuesOf(segs, first))
    decreases |segs|
  {
    if segs != [] {
      assert SingleLine(segs[0]);
      BlockRead(first, segs[0], Blocks(segs[1..], first + 1));
      BlocksRoundTrip(segs[1..], first + 1);
    }
  }

  /** Reading the file `_write_srt` produces gives one cue per segment, numbered 1..n in
      segment order, with the segment's exact millisecond times and stripped text. */
  lemma SrtDocumentRoundTrip(segs: seq<Segment>)
    requires forall k :: 0 <= k < |segs| ==> SingleLine(segs[k])
    ensures ParseCues(SrtDocument(segs)).Some?
    ensures var cues := ParseCues(SrtDocument(segs)).value;
      && |cues| == |segs|
      && forall i :: 0 <= i < |segs| ==>
        cues[i] == Cue(i + 1, segs[i].start, segs[i].end, Strip(segs[i].text))
  {
    BlocksRoundTrip(segs, 1);
    CuesOfAt(segs, 1);
  }
}
