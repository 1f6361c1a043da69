/**
 The mcp-session filter's search for the endpoint URL in a server-sent event stream: the scan itself,
 its behaviour when the stream arrives in chunks, and the rewriting of the URL it finds.
 */
module SseEndpoint {
  import opened Strings
  import opened Wrappers

  // ---- findNextLineBreak ----

  /** The first line of s: none complete, LF followed by CR, or ended at `end` by lineBreak. */
  datatype Line = NoBreak | Unexpected | Ends(end: nat, lineBreak: string)

  function LineEnd(s: string, i: nat): (e: nat)
    requires i <= |s|
    ensures i <= e <= |s| && (e < |s| ==> s[e] == '\r' || s[e] == '\n')
    ensures forall j | i <= j < e :: s[j] != '\r' && s[j] != '\n'
    decreases |s| - i
  {
    if i == |s| || s[i] == '\r' || s[i] == '\n' then i else LineEnd(s, i + 1)
  }

  function NextLine(s: string): (r: Line)
    ensures r.Ends? ==> |r.lineBreak| >= 1 && At(s, r.lineBreak, r.end)
  {
    var e := LineEnd(s, 0);
    if e == |s| then NoBreak
    else if s[e] == '\n' then
      if e + 1 < |s| && s[e + 1] == '\r' then Unexpected else Ends(e, "\n")
    else if e + 1 < |s| && s[e + 1] == '\n' then Ends(e, "\r\n")
    else Ends(e, "\r")
  }

  lemma LineEndIs(s: string, i: nat, e: nat)
    requires i <= e < |s| && (s[e] == '\r' || s[e] == '\n')
    requires forall j | i <= j < e :: s[j] != '\r' && s[j] != '\n'
    ensures LineEnd(s, i) == e
    decreases e - i
  {
  }

  /** The line ends where its own line break first occurs. */
  lemma LineBreakIndex(s: string)
    requires NextLine(s).Ends?
    ensures Index(s, NextLine(s).lineBreak) == NextLine(s).end
  {
  }

  /** The line break is decided by the first CR and the first LF, as the two IndexAny calls find them. */
  method FindNextLineBreak(bufferData: string) returns (err: bool, lineBreak: string)
    ensures err <==> NextLine(bufferData).Unexpected?
    ensures lineBreak == if NextLine(bufferData).Ends? then NextLine(bufferData).lineBreak else ""
  {
    var crIndex := IndexAny(bufferData, '\r');
    var lfIndex := IndexAny(bufferData, '\n');
    if crIndex == -1 && lfIndex == -1 {
      return false, "";
    }
    LineEndIs(bufferData, 0, if crIndex == -1 || (lfIndex != -1 && lfIndex < crIndex) then lfIndex else crIndex);
    lineBreak := "";
    if crIndex != -1 && lfIndex != -1 {
      if crIndex < lfIndex {
        if crIndex + 1 == lfIndex {
          lineBreak := "\r\n";
        } else {
          lineBreak := "\r";
        }
      } else {
        if crIndex == lfIndex + 1 {
          return true, "";
        } else {
          lineBreak := "\n";
        }
      }
    } else if crIndex != -1 {
      lineBreak := "\r";
    } else {
      lineBreak := "\n";
    }
    err := false;
  }

  /** More data changes the first line only when it ends the data, and then only its break. */
  lemma NextLineAppend(s: string, e: string)
    requires !NextLine(s).NoBreak?
    ensures NextLine(s).Unexpected? ==> NextLine(s + e).Unexpected?
    ensures NextLine(s).Ends? ==>
              var l := NextLine(s);
              var last := e != "" && l.end + |l.lineBreak| == |s|;
              NextLine(s + e) ==
                if last && l.lineBreak == "\n" && e[0] == '\r' then Unexpected
                else if last && l.lineBreak == "\r" && e[0] == '\n' then Ends(l.end, "\r\n")
                else l
  {
    var k := LineEnd(s, 0);
    var t := s + e;
    assert forall j | 0 <= j < |s| :: t[j] == s[j];
    assert e != "" ==> t[|s|] == e[0];
    LineEndIs(t, 0, k);
  }

  // ---- findEndpointUrl ----

  const EVENT := "event:"
  const DATA := "data:"

  /**
   What the scan makes of the data: too little of it, an error, or the endpoint URL, with the break
   of the data line and the text behind that line.
   */
  datatype Scanned = More | Fail | Found(url: string, lineBreak: string, rest: string)

  /** The text after the first line. */
  function AfterLine(s: string): (r: string)
    requires NextLine(s).Ends?
    ensures |r| < |s|
  {
    s[NextLine(s).end + |NextLine(s).lineBreak|..]
  }

  function SkipLines(s: string, lineBreak: string): (r: string)
    requires lineBreak != ""
    ensures |r| <= |s|
  {
    if HasPrefix(s, lineBreak) then SkipLines(s[|lineBreak|..], lineBreak) else s
  }

  function ScanData(s: string): Scanned {
    match NextLine(s)
    case NoBreak => More
    case Unexpected => Fail
    case Ends(end, lineBreak) =>
      if !HasPrefix(s[..end], DATA) then Fail
      else Found(TrimSpace(s[|DATA|..end]), lineBreak, AfterLine(s))
  }

  /** An event line behind EVENT, up to where the line ends. */
  function EventName(s: string): string
    requires HasPrefix(s, EVENT) && NextLine(s).Ends?
  {
    EventLineLong(s);
    TrimSpace(s[|EVENT|..NextLine(s).end])
  }

  lemma EventLineLong(s: string)
    requires HasPrefix(s, EVENT) && NextLine(s).Ends?
    ensures |EVENT| <= NextLine(s).end <= |s|
  {
  }

  /** Behind an event that is not an endpoint: one line and any number of its line breaks later. */
  function NextEvent(s: string): (r: string)
    requires NextLine(s).Ends?
    ensures |r| < |s|
  {
    SkipLines(AfterLine(s), NextLine(s).lineBreak)
  }

  function Scan(s: string): Scanned
    decreases |s|
  {
    var k := Index(s, EVENT);
    if k == -1 then More
    else
      var line := s[k..];
      if NextLine(line).NoBreak? then More
      else if NextLine(line).Unexpected? then Fail
      else
        var data := AfterLine(line);
        if EventName(line) == "endpoint" then ScanData(data)
        else if NextLine(data).NoBreak? then More
        else if NextLine(data).Unexpected? then Fail
        else Scan(NextEvent(data))
  }

  lemma AtFits(s: string, t: string, k: nat)
    requires At(s, t, k)
    ensures k + |t| <= |s| && HasPrefix(s[k..], t)
  {
  }

  lemma LineFits(s: string)
    requires NextLine(s).Ends?
    ensures NextLine(s).end + |NextLine(s).lineBreak| <= |s| && |NextLine(s).lineBreak| >= 1
  {
  }

  /** The inner loop: empty lines between events are skipped. */
  method SkipEmptyLines(data: string, lineBreak: string) returns (rest: string)
    requires lineBreak != ""
    ensures rest == SkipLines(data, lineBreak)
  {
    rest := data;
    while HasPrefix(rest, lineBreak)
      invariant SkipLines(rest, lineBreak) == SkipLines(data, lineBreak)
      decreases |rest|
    {
      rest := rest[|lineBreak|..];
    }
  }

  /** Scan, one event at a time. */
  lemma ScanStep(s: string)
    ensures Index(s, EVENT) == -1 ==> Scan(s) == More
    ensures Index(s, EVENT) != -1 ==>
              var line := s[Index(s, EVENT)..];
              && HasPrefix(line, EVENT)
              && (NextLine(line).NoBreak? ==> Scan(s) == More)
              && (NextLine(line).Unexpected? ==> Scan(s) == Fail)
              && (NextLine(line).Ends? ==>
                    var data := AfterLine(line);
                    && |data| < |s|
                    && Scan(s) == if EventName(line) == "endpoint" then ScanData(data)
                                  else match NextLine(data)
                                       case NoBreak => More
                                       case Unexpected => Fail
                                       case Ends(_, _) => Scan(NextEvent(data)))
  {
  }

  method FindEndpointUrl(bufferData: string) returns (err: bool, url: string)
    ensures err <==> Scan(bufferData).Fail?
    ensures url == if Scan(bufferData).Found? then Scan(bufferData).url else ""
  {
    hide TrimSpace, NextLine, At, Scan, SkipLines;
    var data := bufferData;
    while true
      invariant Scan(data) == Scan(bufferData)
      decreases |data|
    {
      ScanStep(data);
      var eventIndex := Index(data, "event:");
      if eventIndex == -1 {
        return false, "";
      }
      AtFits(data, EVENT, eventIndex);
      data := data[eventIndex..];
      ghost var line := data;
      var lineBreak;
      err, lineBreak := FindNextLineBreak(data);
      if err {
        return true, "";
      }
      if lineBreak == "" {
        return false, "";
      }
      LineBreakIndex(line);
      LineFits(line);
      EventLineLong(line);
      var eventEndIndex := Index(data, lineBreak);
      var eventName := TrimSpace(data[|EVENT|..eventEndIndex]);
      data := data[eventEndIndex + |lineBreak|..];
      assert data == AfterLine(line);
      err, lineBreak := FindNextLineBreak(data);
      if err {
        return true, "";
      }
      if lineBreak == "" {
        return false, "";
      }
      LineBreakIndex(data);
      LineFits(data);
      var dataEndIndex := Index(data, lineBreak);
      if eventName == "endpoint" {
        var eventData := data[..dataEndIndex];
        if !HasPrefix(eventData, "data:") {
          return true, "";
        }
        assert eventData[|DATA|..] == data[|DATA|..dataEndIndex];
        return false, TrimSpace(eventData[|DATA|..]);
      } else {
        data := SkipEmptyLines(data[dataEndIndex + |lineBreak|..], lineBreak);
      }
    }
  }

  /** A scan that is not More has two bytes to look at, so its line breaks lie inside the data. */
  lemma ScanLong(s: string)
    requires !Scan(s).More?
    ensures 0 <= Index(s, EVENT) <= |s| && |s| >= |EVENT|
  {
  }

  lemma LineAt(s: string, k: nat)
    requires At(s, EVENT, k)
    ensures k <= |s| && HasPrefix(s[k..], EVENT)
  {
  }

  /** How far from the end of a found data line's text its URL starts. */
  function DataTail(s: string): (n: nat)
    requires ScanData(s).Found?
    ensures n <= |s|
  {
    var end := NextLine(s).end;
    |TrimLeft(s[|DATA|..end])| + |s| - end
  }

  /** How far from the end of the text the URL of the data line found starts. */
  function UrlTail(s: string): (n: nat)
    requires Scan(s).Found?
    ensures n <= |s|
    decreases |s|
  {
    ScanStep(s);
    var data := AfterLine(s[Index(s, EVENT)..]);
    if EventName(s[Index(s, EVENT)..]) == "endpoint" then DataTail(data) else UrlTail(NextEvent(data))
  }

  /** Where the URL of the data line found starts. */
  function UrlAt(s: string): nat
    requires Scan(s).Found?
  {
    |s| - UrlTail(s)
  }

  lemma {:induction false} DataUrlAt(s: string)
    requires ScanData(s).Found?
    ensures At(s, ScanData(s).url, |s| - DataTail(s))
  {
    hide NextLine, TrimSpace, TrimLeft, At, HasPrefix, AfterLine;
    DataFits(s);
    var l := NextLine(s);
    var d := s[|DATA|..l.end];
    TrimSpaceWithin(d);
    Nested(s, |DATA|, l.end, TrimSpace(d), |d| - |TrimLeft(d)|);
  }

  lemma DataFits(s: string)
    requires ScanData(s).Found?
    ensures NextLine(s).Ends? && |DATA| <= NextLine(s).end <= |s|
  {
    hide TrimSpace;
  }

  /** Scan and UrlTail together, one event at a time. */
  lemma UrlTailStep(s: string)
    requires Scan(s).Found?
    ensures 0 <= Index(s, EVENT) <= |s|
    ensures var line := s[Index(s, EVENT)..];
            && HasPrefix(line, EVENT) && NextLine(line).Ends?
            && var data := AfterLine(line);
               if EventName(line) == "endpoint" then
                 ScanData(data).Found? && Scan(s) == ScanData(data) && UrlTail(s) == DataTail(data)
               else
                 && NextLine(data).Ends? && Scan(NextEvent(data)).Found?
                 && Scan(s) == Scan(NextEvent(data)) && UrlTail(s) == UrlTail(NextEvent(data))
  {
    hide NextLine, ScanData, EventName, NextEvent, DataTail, AfterLine;
    ScanStep(s);
  }

  /** What is found in a suffix is found as far from the end of the whole. */
  lemma TailWithin(s: string, i: nat, t: string, n: nat)
    requires i <= |s| && n <= |s[i..]| && At(s[i..], t, |s[i..]| - n)
    ensures At(s, t, |s| - n)
  {
    assert s[i..] == s[i..|s|];
    Nested(s, i, |s|, t, |s| - i - n);
  }

  /** The URL found stands in the data, at the place in the data line where the scan read it. */
  lemma {:induction false} UrlInDataLine(s: string)
    requires Scan(s).Found?
    ensures At(s, Scan(s).url, UrlAt(s))
    decreases |s|
  {
    hide NextLine, SkipLines, Index, ScanData, EventName, At, HasPrefix, AfterLine, DataTail, Scan, UrlTail, NextEvent;
    UrlTailStep(s);
    var line := s[Index(s, EVENT)..];
    var data := AfterLine(line);
    if EventName(line) == "endpoint" {
      DataUrlAt(data);
    } else {
      UrlInDataLine(NextEvent(data));
      NextEventIsSuffix(data);
      TailWithin(data, |data| - |NextEvent(data)|, Scan(s).url, UrlTail(s));
    }
    AfterLineIsSuffix(line);
    TailWithin(line, |line| - |data|, Scan(s).url, UrlTail(s));
    TailWithin(s, Index(s, EVENT), Scan(s).url, UrlTail(s));
  }

  lemma NextEventIsSuffix(s: string)
    requires NextLine(s).Ends?
    ensures var r := NextEvent(s); |r| <= |s| && r == s[|s| - |r|..]
  {
    hide NextLine;
    var fields := AfterLine(s);
    SkipIsSuffix(fields, NextLine(s).lineBreak);
    AfterLineIsSuffix(s);
    var r := NextEvent(s);
    assert s[|s| - |fields|..][|fields| - |r|..] == s[|s| - |r|..];
  }

  /** So looking it up again never fails. */
  lemma {:induction false} UrlIsSubstring(s: string)
    requires Scan(s).Found?
    ensures 0 <= Index(s, Scan(s).url) <= UrlAt(s)
  {
    hide Scan, UrlTail;
    UrlInDataLine(s);
  }

  lemma AfterLineIsSuffix(s: string)
    requires NextLine(s).Ends?
    ensures var r := AfterLine(s); r == s[|s| - |r|..]
  {
  }

  lemma SkipIsSuffix(s: string, lineBreak: string)
    requires lineBreak != ""
    ensures var r := SkipLines(s, lineBreak); r == s[|s| - |r|..]
  {
  }

  lemma Nested(s: string, i: nat, j: nat, t: string, k: nat)
    requires i <= j <= |s| && At(s[i..j], t, k)
    ensures At(s, t, i + k)
  {
    var part := s[i..j];
    assert forall m | 0 <= m < |t| :: t[m] == part[k..k + |t|][m] == part[k + m] == s[i + k + m];
    assert s[i + k..i + k + |t|] == t;
  }

  // ---- More data after a decided scan ----

  /** A found endpoint once e follows the data. Only the break of the data line can still change. */
  function Extend(r: Scanned, e: string): Scanned
    requires r.Found?
  {
    if r.rest == "" && e != "" && r.lineBreak == "\n" && e[0] == '\r' then Fail
    else if r.rest == "" && e != "" && r.lineBreak == "\r" && e[0] == '\n' then Found(r.url, "\r\n", e[1..])
    else Found(r.url, r.lineBreak, r.rest + e)
  }

  lemma LineAppend(s: string, e: string)
    requires NextLine(s).Unexpected? || (NextLine(s).Ends? && AfterLine(s) != "")
    ensures NextLine(s + e) == NextLine(s)
    ensures NextLine(s).Ends? ==>
              AfterLine(s + e) == AfterLine(s) + e && (s + e)[..NextLine(s).end] == s[..NextLine(s).end]
  {
    NextLineAppend(s, e);
  }

  lemma {:induction false} ScanDataAppend(s: string, e: string)
    requires !ScanData(s).More?
    ensures ScanData(s + e) == if ScanData(s).Fail? then Fail else Extend(ScanData(s), e)
  {
    hide TrimSpace, NextLine, At, HasPrefix;
    NextLineAppend(s, e);
    var l := NextLine(s);
    if l.Unexpected? { return; }
    LineFits(s);
    Cuts(s, e, l.end, l.end + |l.lineBreak|);
  }

  lemma Cuts(s: string, e: string, end: nat, n: nat)
    requires end <= n <= |s|
    ensures (s + e)[..end] == s[..end] && (s + e)[n..] == s[n..] + e
    ensures |DATA| <= end ==> (s + e)[|DATA|..end] == s[|DATA|..end]
    ensures e != "" && n == |s| ==> (s + e)[n + 1..] == e[1..]
  {
  }

  lemma SkipAppend(s: string, lineBreak: string, e: string)
    requires lineBreak != "" && |SkipLines(s, lineBreak)| >= |lineBreak|
    ensures SkipLines(s + e, lineBreak) == SkipLines(s, lineBreak) + e
  {
    if HasPrefix(s, lineBreak) {
      assert (s + e)[|lineBreak|..] == s[|lineBreak|..] + e;
      SkipAppend(s[|lineBreak|..], lineBreak, e);
    } else {
      assert (s + e)[..|lineBreak|] == s[..|lineBreak|];
    }
  }

  lemma EventNameAppend(s: string, e: string)
    requires HasPrefix(s, EVENT) && NextLine(s).Ends? && AfterLine(s) != ""
    ensures HasPrefix(s + e, EVENT) && NextLine(s + e).Ends? && EventName(s + e) == EventName(s)
  {
    LineAppend(s, e);
    EventLineLong(s);
    assert (s + e)[|EVENT|..NextLine(s).end] == s[|EVENT|..NextLine(s).end];
  }

  lemma NextEventAppend(s: string, e: string)
    requires NextLine(s).Ends? && |NextEvent(s)| >= 2
    ensures NextLine(s + e).Ends? && NextEvent(s + e) == NextEvent(s) + e
  {
    hide SkipLines;
    LineAppend(s, e);
    SkipAppend(AfterLine(s), NextLine(s).lineBreak, e);
  }

  /**
   More data never turns an error or a found endpoint back: an error stays, and an endpoint is found
   again with the same URL, except that LF at the very end of the data followed by CR is an error.
   */
  lemma {:induction false} ScanAppend(s: string, e: string)
    requires !Scan(s).More?
    ensures Scan(s + e) == if Scan(s).Fail? then Fail else Extend(Scan(s), e)
    decreases |s|
  {
    hide NextLine, SkipLines, Index, TrimSpace, ScanData, EventName, NextEvent, AfterLine, HasPrefix, Extend, At;
    IndexAppend(s, e, EVENT);
    ScanLong(s);
    var k := Index(s, EVENT);
    var line := s[k..];
    LineAt(s, k);
    assert (s + e)[k..] == line + e;
    if NextLine(line).Unexpected? {
      LineAppend(line, e);
      return;
    }
    var data := AfterLine(line);
    EmptyHasNoBreak();
    if EventName(line) == "endpoint" {
      LineAppend(line, e);
      EventNameAppend(line, e);
      ScanDataAppend(data, e);
      return;
    }
    LineAppend(line, e);
    EventNameAppend(line, e);
    if NextLine(data).Unexpected? {
      LineAppend(data, e);
    } else {
      ScanLong(NextEvent(data));
      NextEventAppend(data, e);
      ScanAppend(NextEvent(data), e);
    }
  }

  /** Exactly when a URL found on d is still the result on d + e. */
  lemma {:induction false} FoundStaysIff(d: string, e: string)
    requires Scan(d).Found?
    ensures Scan(d + e).Found? && Scan(d + e).url == Scan(d).url
            <==> !(Scan(d).rest == "" && Scan(d).lineBreak == "\n" && HasPrefix(e, "\r"))
  {
    hide Scan;
    ScanAppend(d, e);
    assert HasPrefix(e, "\r") <==> e != "" && e[0] == '\r';
  }

  lemma DataTailAppend(s: string, e: string)
    requires ScanData(s).Found? && ScanData(s + e).Found?
    ensures DataTail(s + e) == DataTail(s) + |e|
  {
    hide NextLine, TrimLeft, TrimSpace, At, HasPrefix, AfterLine;
    DataFits(s);
    DataFits(s + e);
    NextLineAppend(s, e);
    var l := NextLine(s);
    LineFits(s);
    Cuts(s, e, l.end, l.end + |l.lineBreak|);
  }

  /** The URL that stays found stays where it is. */
  lemma {:induction false} UrlAtAppend(s: string, e: string)
    requires Scan(s).Found? && Scan(s + e).Found?
    ensures UrlAt(s + e) == UrlAt(s)
    decreases |s|
  {
    hide NextLine, SkipLines, Index, ScanData, EventName, NextEvent, AfterLine, HasPrefix, At, Scan, UrlTail, DataTail;
    UrlTailStep(s);
    UrlTailStep(s + e);
    IndexAppend(s, e, EVENT);
    var k := Index(s, EVENT);
    var line := s[k..];
    assert (s + e)[k..] == line + e;
    var data := AfterLine(line);
    EmptyHasNoBreak();
    LineAppend(line, e);
    EventNameAppend(line, e);
    if EventName(line) == "endpoint" {
      DataTailAppend(data, e);
    } else {
      ScanLong(NextEvent(data));
      NextEventAppend(data, e);
      UrlAtAppend(NextEvent(data), e);
    }
  }

  lemma EmptyHasNoBreak()
    ensures NextLine("").NoBreak? && ScanData("").More?
  {
  }

  // ---- A well-formed endpoint event is found ----

  predicate IsLineBreak(b: string) { b == "\n" || b == "\r" || b == "\r\n" }

  predicate OneLine(s: string) { '\r' !in s && '\n' !in s }

  /** The break would be read as a longer one, or as LF followed by CR. */
  predicate RunsOn(lineBreak: string, rest: string) {
    rest != "" && ((lineBreak == "\n" && rest[0] == '\r') || (lineBreak == "\r" && rest[0] == '\n'))
  }

  /** A line without line ends, its break, and text that does not run on with the break. */
  lemma LineOf(text: string, lineBreak: string, rest: string)
    requires OneLine(text) && IsLineBreak(lineBreak) && !RunsOn(lineBreak, rest)
    ensures var s := text + (lineBreak + rest);
            NextLine(s) == Ends(|text|, lineBreak) && AfterLine(s) == rest && s[..|text|] == text
  {
    var s := text + (lineBreak + rest);
    assert s[|text|] == lineBreak[0];
    assert forall j | 0 <= j < |text| :: s[j] == text[j];
    LineEndIs(s, 0, |text|);
    assert |lineBreak| == 2 ==> s[|text| + 1] == lineBreak[1];
    assert |lineBreak| == 1 && rest != "" ==> s[|text| + 1] == rest[0];
    assert s[|text| + |lineBreak|..] == rest;
  }

  lemma TrimOneSpace(s: string)
    requires WhiteHead(s) == 0 && WhiteTail(s) == 0
    ensures TrimLeft(" " + s) == s && TrimSpace(" " + s) == s
  {
    var t := " " + s;
    assert WhiteHead(t) == 1 && t[1..] == s;
    assert TrimLeft(t) == TrimLeft(s) == s;
  }

  /** An event line and what follows it. */
  function EventText(name: string, lineBreak: string, data: string): string {
    ("event: " + name) + (lineBreak + data)
  }

  lemma EventTextLine(name: string, lineBreak: string, data: string)
    requires IsLineBreak(lineBreak) && !RunsOn(lineBreak, data)
    requires OneLine(name) && WhiteHead(name) == 0 && WhiteTail(name) == 0
    ensures IsEventLine(EventText(name, lineBreak, data), name, data)
  {
    hide NextLine, TrimSpace, TrimLeft, AfterLine;
    var e := EventText(name, lineBreak, data);
    var line := "event: " + name;
    LineOf(line, lineBreak, data);
    assert line[..|EVENT|] == EVENT && line[|EVENT|..] == " " + name;
    assert e[|EVENT|..|line|] == line[|EVENT|..];
    assert e[..|EVENT|] == line[..|EVENT|];
    TrimOneSpace(name);
    IndexIs(e, EVENT, 0);
  }

  /** e starts with an event line of that name, and the data behind it. */
  predicate IsEventLine(e: string, name: string, data: string) {
    && HasPrefix(e, EVENT) && Index(e, EVENT) == 0 && e[0..] == e
    && NextLine(e).Ends? && AfterLine(e) == data && EventName(e) == name
  }

  lemma DataLine(lineBreak: string, url: string)
    requires IsLineBreak(lineBreak) && OneLine(url) && WhiteHead(url) == 0 && WhiteTail(url) == 0
    ensures var data := ("data: " + url) + lineBreak;
            && !RunsOn(lineBreak, data) && ScanData(data) == Found(url, lineBreak, "")
            && DataTail(data) == |url| + |lineBreak|
  {
    hide NextLine, TrimSpace, TrimLeft, AfterLine;
    var line := "data: " + url;
    var data := line + lineBreak;
    assert lineBreak + "" == lineBreak;
    LineOf(line, lineBreak, "");
    assert data[0] == 'd';
    assert line[..|DATA|] == DATA && line[|DATA|..] == " " + url;
    assert data[|DATA|..|line|] == line[|DATA|..];
    TrimOneSpace(url);
  }

  /** An endpoint event: its two lines, each with the line break. */
  function EndpointEvent(lineBreak: string, url: string): string {
    EventText("endpoint", lineBreak, ("data: " + url) + lineBreak)
  }

  /** It is found behind any text, as long as "event:" does not occur earlier, with each line break. */
  lemma EndpointIsFound(text: string, url: string, lineBreak: string)
    requires IsLineBreak(lineBreak) && OneLine(url) && WhiteHead(url) == 0 && WhiteTail(url) == 0
    requires Index(text + EndpointEvent(lineBreak, url), EVENT) == |text|
    ensures Scan(text + EndpointEvent(lineBreak, url)) == Found(url, lineBreak, "")
    ensures UrlTail(text + EndpointEvent(lineBreak, url)) == |url| + |lineBreak|
  {
    var data := ("data: " + url) + lineBreak;
    var event := EndpointEvent(lineBreak, url);
    assert event == EventText("endpoint", lineBreak, data);
    EndpointName();
    hide NextLine, AfterLine, Index, ScanData, Scan, EventName, HasPrefix, UrlTail, DataTail, At;
    hide EndpointEvent, EventText, WhiteHead, WhiteTail, OneLine, IsLineBreak, RunsOn;
    DataLine(lineBreak, url);
    EventTextLine("endpoint", lineBreak, data);
    assert (text + event)[|text|..] == event;
    EndpointScanned(text + event, event, data);
  }

  lemma EndpointName()
    ensures OneLine("endpoint") && WhiteHead("endpoint") == 0 && WhiteTail("endpoint") == 0
  {
  }

  lemma EndpointScanned(s: string, line: string, data: string)
    requires 0 <= Index(s, EVENT) <= |s| && s[Index(s, EVENT)..] == line
    requires HasPrefix(line, EVENT) && NextLine(line).Ends?
    requires AfterLine(line) == data && EventName(line) == "endpoint"
    ensures Scan(s) == ScanData(data)
    ensures ScanData(data).Found? ==> UrlTail(s) == DataTail(data)
  {
    hide NextLine, AfterLine, Index, ScanData, EventName, HasPrefix, Scan, UrlTail, DataTail, At;
    ScanStep(s);
    if ScanData(data).Found? { UrlTailStep(s); }
  }

  // ---- rewriteEndpointUrl ----

  datatype Rule = Rule(enablePathRewrite: bool, matchRulePath: string, pathRewritePrefix: string)

  /** The path of an absolute or relative endpoint URL. */
  function PathOf(url: string): string {
    var scheme := Index(url, "://");
    if scheme == -1 then url
    else
      var behind := url[scheme + 3..];
      var slash := Index(behind, "/");
      if slash == -1 then "/" else behind[slash..]
  }

  /** rewriteEndpointUrl: the new URL, or None when the URL is left alone. */
  function Rewrite(rule: Rule, url: string): Option<string> {
    var path := PathOf(url);
    var prefix, matched := rule.pathRewritePrefix, rule.matchRulePath;
    if !rule.enablePathRewrite || !HasPrefix(path, prefix) then None
    else
      var suffix := path[|prefix|..];
      if suffix == "" then Some(matched)
      else if HasSuffix(matched, "/") != HasPrefix(suffix, "/") then Some(matched + suffix)
      else if HasSuffix(matched, "/") then Some(matched + suffix[1..])
      else Some(matched + "/" + suffix)
  }

  /**
   What replaces the rewrite prefix is the match path: the new URL is the match path, then what
   followed the prefix, with exactly one slash where they meet whichever of them brought one.
   */
  lemma RewriteSeam(rule: Rule, url: string, a: string, b: string)
    requires rule.enablePathRewrite && PathOf(url) == rule.pathRewritePrefix + b
    requires rule.matchRulePath == a || rule.matchRulePath == a + "/"
    requires !HasSuffix(a, "/") && b != "" && (|b| > 1 ==> !HasPrefix(b[1..], "/"))
    ensures Rewrite(rule, url) == Some(a + "/" + if b[0] == '/' then b[1..] else b)
  {
    hide PathOf, Index;
    var p := rule.pathRewritePrefix;
    assert PathOf(url)[..|p|] == p && PathOf(url)[|p|..] == b;
    SlashAtEnd(a);
    SlashAtStart(b);
    if b[0] == '/' { ConcatAssoc(a, "/", b[1..]); }
  }

  /** The URL is left alone exactly if rewriting is off or its path does not start with the prefix. */
  lemma RewriteWhen(rule: Rule, url: string)
    ensures Rewrite(rule, url).None?
            <==> !rule.enablePathRewrite || |PathOf(url)| < |rule.pathRewritePrefix|
                 || PathOf(url)[..|rule.pathRewritePrefix|] != rule.pathRewritePrefix
    ensures rule.enablePathRewrite && PathOf(url) == rule.pathRewritePrefix ==>
              Rewrite(rule, url) == Some(rule.matchRulePath)
  {
    hide PathOf;
  }

  /** The path of an absolute URL is what stands behind its host, "/" if that is nothing; its scheme and host go. */
  lemma AbsoluteUrl(rule: Rule, scheme: string, host: string, path: string)
    requires ':' !in scheme && '/' !in host && (path == "" || path[0] == '/')
    ensures var url := scheme + "://" + host + path; var p := if path == "" then "/" else path;
            && PathOf(url) == p
            && (Index(p, "://") == -1 ==> Rewrite(rule, url) == Rewrite(rule, p))
  {
    hide Index;
    var behind := host + path;
    var url := scheme + "://" + host + path;
    assert url == scheme + "://" + behind;
    InMiddle(scheme, "://", behind);
    assert url[|scheme| + 3..] == behind;
    if path == "" {
      assert behind == host;
      NotBefore(host, "/", host);
    } else {
      assert behind == host + "/" + path[1..];
      InMiddle(host, "/", path[1..]);
      assert behind[|host|..] == path;
    }
  }

  /** A relative URL is its own path. */
  lemma RelativeUrl(url: string)
    requires Index(url, "://") == -1
    ensures PathOf(url) == url
  {
  }

  lemma SlashAtEnd(a: string)
    ensures HasSuffix(a + "/", "/")
  {
  }

  lemma SlashAtStart(b: string)
    requires b != ""
    ensures HasPrefix(b, "/") <==> b[0] == '/'
    ensures b[0] == '/' ==> b == "/" + b[1..]
  {
  }

  // ---- encodeDataFromSSEUpstream over a whole response ----

  function CutQuery(url: string): (r: string)
    ensures r <= url
  {
    var q := IndexAny(url, '?');
    if q == -1 then url else url[..q]
  }

  /** Cut off is the first question mark and what follows it. */
  lemma CutQueryMeans(path: string, query: string)
    requires '?' !in path
    ensures CutQuery(path) == path && CutQuery(path + "?" + query) == path
  {
    var url := path + "?" + query;
    assert forall j: nat | j < |path| :: url[j] == path[j];
    assert url[|path|] == '?';
    assert url[..|path|] == path;
  }

  /** s with the first occurrence of t replaced. */
  function ReplaceFirst(s: string, t: string, n: string): string
    requires Index(s, t) >= 0
  {
    var i := Index(s, t);
    s[..i] + n + s[i + |t|..]
  }

  /** The scan decides the response: an error, or a URL that is not empty. */
  predicate Decisive(d: string) {
    Scan(d).Fail? || (Scan(d).Found? && Scan(d).url != "")
  }

  predicate Rewrites(rule: Rule, d: string) {
    Scan(d).Found? && Scan(d).url != "" && Rewrite(rule, CutQuery(Scan(d).url)).Some?
  }

  lemma {:induction false} UrlThere(d: string)
    requires Scan(d).Found?
    ensures Index(d, CutQuery(Scan(d).url)) >= 0
  {
    hide Scan, CutQuery;
    var u := Scan(d).url;
    UrlIsSubstring(d);
    assert At(d, CutQuery(u), Index(d, u)) by { AtPrefix(d, u, CutQuery(u), Index(d, u)); }
  }

  lemma AtPrefix(d: string, u: string, v: string, i: nat)
    requires At(d, u, i) && v <= u
    ensures At(d, v, i)
  {
  }

  /** All of the data with the endpoint URL rewritten. */
  function Rewritten(rule: Rule, d: string): string
    requires Rewrites(rule, d)
  {
    UrlThere(d);
    var u := CutQuery(Scan(d).url);
    ReplaceFirst(d, u, Rewrite(rule, u).value)
  }

  datatype State = State(cached: string, needProcess: bool)

  /** One chunk: the state after it, and what the filter passes on in its place. */
  function Next(f: State, chunk: string): State {
    if !f.needProcess then f
    else
      var d := f.cached + chunk;
      if Scan(d).Fail? then State(f.cached, false)
      else if !Decisive(d) then State(d, true)
      else State("", false)
  }

  function Passed(rule: Rule, f: State, chunk: string): string {
    var d := f.cached + chunk;
    if !f.needProcess then chunk
    else if !Decisive(d) then ""
    else if Rewrites(rule, d) then Rewritten(rule, d)
    else chunk
  }

  /** The three outcomes of a chunk that completes the data d. */
  lemma {:induction false} Outcomes(rule: Rule, f: State, chunk: string, d: string)
    requires f.needProcess && d == f.cached + chunk
    ensures Scan(d).Fail? ==> Next(f, chunk) == State(f.cached, false) && Passed(rule, f, chunk) == chunk
    ensures !Decisive(d) ==> Next(f, chunk) == State(d, true) && Passed(rule, f, chunk) == ""
    ensures Decisive(d) && Scan(d).Found? ==>
              var u := CutQuery(Scan(d).url);
              var i, n := Index(d, u), Rewrite(rule, u);
              && i >= 0 && At(d, u, i)
              && Next(f, chunk) == State("", false)
              && (n.None? ==> Passed(rule, f, chunk) == chunk)
              && (n.Some? ==> Passed(rule, f, chunk) == d[..i] + n.value + d[i + |u|..])
  {
    hide Scan, Rewrite, CutQuery;
    if Scan(d).Found? { UrlThere(d); }
  }

  class Filter {
    const rule: Rule
    var cachedResponseBody: string
    var needProcess: bool

    ghost function Now(): State
      reads this
    {
      State(cachedResponseBody, needProcess)
    }

    constructor (rule: Rule)
      ensures this.rule == rule && Now() == State("", true)
    {
      this.rule, cachedResponseBody, needProcess := rule, "", true;
    }

    method RewriteEndpointUrl(endpointUrl: string) returns (changed: bool, url: string)
      ensures changed <==> Rewrite(rule, endpointUrl).Some?
      ensures url == if changed then Rewrite(rule, endpointUrl).value else ""
    {
      if !rule.enablePathRewrite {
        return false, "";
      }
      url := endpointUrl;
      var schemeIndex := Index(url, "://");
      if schemeIndex != -1 {
        url := url[schemeIndex + 3..];
        var slashIndex := Index(url, "/");
        if slashIndex != -1 {
          url := url[slashIndex..];
        } else {
          url := "/";
        }
      }
      if !HasPrefix(url, rule.pathRewritePrefix) {
        return false, "";
      }
      var suffix := url[|rule.pathRewritePrefix|..];
      if |suffix| == 0 {
        url := rule.matchRulePath;
      } else {
        var matchPathHasTrailingSlash := HasSuffix(rule.matchRulePath, "/");
        var suffixHasLeadingSlash := HasPrefix(suffix, "/");
        if matchPathHasTrailingSlash != suffixHasLeadingSlash {
          url := rule.matchRulePath + suffix;
        } else if matchPathHasTrailingSlash {
          url := rule.matchRulePath + suffix[1..];
        } else {
          url := rule.matchRulePath + "/" + suffix;
        }
      }
      changed := true;
    }

    /** `out` is what the chunk's buffer holds afterwards. */
    method EncodeDataFromSSEUpstream(buffer: string) returns (out: string)
      requires needProcess
      modifies this
      ensures Now() == Next(old(Now()), buffer) && out == Passed(rule, old(Now()), buffer)
    {
      hide Scan, Index, Rewrite, At, Next, Passed, CutQuery;
      out := buffer;
      var combinedData := if |cachedResponseBody| > 0 then cachedResponseBody + buffer else buffer;
      assert combinedData == cachedResponseBody + buffer;
      Outcomes(rule, Now(), buffer, combinedData);
      var err, endpointUrl := FindEndpointUrl(combinedData);
      if err {
        needProcess := false;
        return;
      }
      if endpointUrl == "" {
        cachedResponseBody := combinedData;
        out := "";
        return;
      }
      cachedResponseBody := "";
      out := PassOn(combinedData, endpointUrl, buffer);
      needProcess := false;
    }

    /** Once a URL is found: all the data with the URL rewritten, or the chunk as it came. */
    method PassOn(combinedData: string, url: string, buffer: string) returns (out: string)
      ensures var u := CutQuery(url);
              var i, n := Index(combinedData, u), Rewrite(rule, u);
              out == if n.None? || i == -1 then buffer
                     else combinedData[..i] + n.value + combinedData[i + |u|..]
    {
      hide Index, Rewrite;
      out := buffer;
      var endpointUrl := url;
      var queryStringIndex := IndexAny(endpointUrl, '?');
      if queryStringIndex != -1 {
        endpointUrl := endpointUrl[..queryStringIndex];
      }
      var changed, newEndpointUrl := RewriteEndpointUrl(endpointUrl);
      if changed {
        var endpointUrlIndex := Index(combinedData, endpointUrl);
        if endpointUrlIndex != -1 {
          out := combinedData[..endpointUrlIndex] + newEndpointUrl + combinedData[endpointUrlIndex + |endpointUrl|..];
        }
      }
    }

    method EncodeData(buffer: string) returns (out: string)
      modifies this
      ensures Now() == Next(old(Now()), buffer) && out == Passed(rule, old(Now()), buffer)
    {
      if !needProcess {
        return buffer;
      }
      out := EncodeDataFromSSEUpstream(buffer);
    }
  }

  function Join(chunks: seq<string>): string {
    if chunks == [] then "" else Join(chunks[..|chunks| - 1]) + chunks[|chunks| - 1]
  }

  function Run(chunks: seq<string>): State {
    if chunks == [] then State("", true) else Next(Run(chunks[..|chunks| - 1]), chunks[|chunks| - 1])
  }

  /** Everything the client receives for the chunks. */
  function Output(rule: Rule, chunks: seq<string>): string {
    if chunks == [] then ""
    else Output(rule, chunks[..|chunks| - 1]) + Passed(rule, Run(chunks[..|chunks| - 1]), chunks[|chunks| - 1])
  }

  /** None of the first n chunks decides. */
  predicate Undecided(chunks: seq<string>, n: nat)
    requires n <= |chunks|
  {
    forall j | 0 <= j <= n :: !Decisive(Join(chunks[..j]))
  }

  /** Chunk i is the one that decides. */
  predicate DecidedBy(chunks: seq<string>, i: nat)
    requires i < |chunks|
  {
    Undecided(chunks, i) && Decisive(Join(chunks[..i + 1]))
  }

  lemma UndecidedRun(chunks: seq<string>, n: nat, m: nat)
    requires n <= m <= |chunks| && Undecided(chunks, n)
    ensures Undecided(chunks[..m], n)
    ensures !Decisive(Join(chunks[..n]))
  {
    hide Decisive, Join;
    assert forall j | 0 <= j <= n :: chunks[..m][..j] == chunks[..j];
  }

  /** Until the scan decides, everything received is held back. */
  lemma {:induction false} HeldBack(rule: Rule, chunks: seq<string>)
    requires Undecided(chunks, |chunks|)
    ensures Run(chunks) == State(Join(chunks), true) && Output(rule, chunks) == ""
  {
    if chunks != [] {
      hide Decisive, Rewritten, Rewrites, Scan, Undecided;
      var n := |chunks| - 1;
      assert chunks[..n + 1] == chunks;
      UndecidedRun(chunks, |chunks|, |chunks|);
      UndecidedStarts(chunks);
      UndecidedRun(chunks, n, n);
      HeldBack(rule, chunks[..n]);
    }
  }

  lemma UndecidedStarts(chunks: seq<string>)
    requires chunks != [] && Undecided(chunks, |chunks|)
    ensures Undecided(chunks, |chunks| - 1)
  {
  }

  /** What the client receives once chunk i has decided, and the join seen from that chunk. */
  lemma {:induction false} AfterDecision(rule: Rule, chunks: seq<string>, i: nat)
    requires i < |chunks| && DecidedBy(chunks, i)
    ensures !Run(chunks).needProcess
    ensures Join(chunks[..i + 1]) == Join(chunks[..i]) + chunks[i] <= Join(chunks)
    ensures var d := Join(chunks[..i + 1]);
            Output(rule, chunks) == (if Rewrites(rule, d) then Rewritten(rule, d) else chunks[i]) + Join(chunks)[|d|..]
    decreases |chunks|
  {
    hide Rewritten, Rewrites, Scan, Decisive, Undecided;
    var n := |chunks| - 1;
    var d := Join(chunks[..i + 1]);
    var run := chunks[..n];
    UndecidedRun(chunks, i, n);
    if i == n {
      assert chunks[..n + 1] == chunks && d[|d|..] == "";
      DecisiveStep(rule, chunks, run);
    } else {
      assert run[..i] == chunks[..i] && run[..i + 1] == chunks[..i + 1];
      AfterDecision(rule, run, i);
      assert Join(chunks)[|d|..] == Join(run)[|d|..] + chunks[n];
      ConcatAssoc(if Rewrites(rule, d) then Rewritten(rule, d) else chunks[i], Join(run)[|d|..], chunks[n]);
    }
  }

  lemma {:induction false} DecisiveStep(rule: Rule, chunks: seq<string>, run: seq<string>)
    requires chunks != [] && run == chunks[..|chunks| - 1] && Undecided(run, |run|) && Decisive(Join(chunks))
    ensures !Run(chunks).needProcess
    ensures Output(rule, chunks)
            == if Rewrites(rule, Join(chunks)) then Rewritten(rule, Join(chunks)) else chunks[|run|]
  {
    hide Rewritten, Rewrites, Scan, Undecided;
    HeldBack(rule, run);
  }

  /**
   The rewritten path loses and adds nothing: over the whole response the client receives all the
   data, cached or not, with the first occurrence of the URL replaced and nothing else changed.
   */
  lemma {:induction false} RewritesOnce(rule: Rule, chunks: seq<string>, i: nat)
    requires i < |chunks| && DecidedBy(chunks, i) && Rewrites(rule, Join(chunks[..i + 1]))
    ensures var d, all := Join(chunks[..i + 1]), Join(chunks);
            var u := CutQuery(Scan(d).url);
            && Index(all, u) == Index(d, u) >= 0
            && Output(rule, chunks) == ReplaceFirst(all, u, Rewrite(rule, u).value)
  {
    hide Scan, Rewrite, CutQuery, Undecided, Index;
    var d, all := Join(chunks[..i + 1]), Join(chunks);
    var u := CutQuery(Scan(d).url);
    AfterDecision(rule, chunks, i);
    UrlThere(d);
    assert all == d + all[|d|..];
    IndexAppend(d, all[|d|..], u);
    ReplaceAppend(d, all[|d|..], u, Rewrite(rule, u).value);
  }

  lemma ReplaceAppend(d: string, e: string, u: string, n: string)
    requires Index(d, u) >= 0 && Index(d + e, u) == Index(d, u)
    ensures ReplaceFirst(d + e, u, n) == ReplaceFirst(d, u, n) + e
  {
  }

  /**
   On an error and when the URL is left alone, what was cached before the deciding chunk is never
   passed on: the client receives the response without it, hence all of it only if nothing was cached.
   */
  lemma {:induction false} CachedIsLost(rule: Rule, chunks: seq<string>, i: nat)
    requires i < |chunks| && DecidedBy(chunks, i) && !Rewrites(rule, Join(chunks[..i + 1]))
    ensures Join(chunks) == Join(chunks[..i]) + Output(rule, chunks)
    ensures Output(rule, chunks) == Join(chunks) <==> Join(chunks[..i]) == ""
  {
    hide Scan, Undecided, Rewrites;
    AfterDecision(rule, chunks, i);
    var d, all := Join(chunks[..i + 1]), Join(chunks);
    ConcatAssoc(Join(chunks[..i]), chunks[i], all[|d|..]);
    assert all == d + all[|d|..];
  }

  /**
   Scanning again as chunks arrive gives what one scan of the whole response gives, unless the
   deciding chunk ends with the LF of the data line and the next byte is CR: then the whole response
   is an error and would have passed unchanged.
   */
  lemma {:induction false} AgreesWithWhole(rule: Rule, chunks: seq<string>, i: nat)
    requires i < |chunks| && DecidedBy(chunks, i) && Rewrites(rule, Join(chunks[..i + 1]))
    ensures var d, all := Join(chunks[..i + 1]), Join(chunks);
            && d <= all
            && Output(rule, [all]) == if Extend(Scan(d), all[|d|..]).Fail? then all else Output(rule, chunks)
  {
    hide Scan, Rewrites, Rewritten, Extend, Undecided, Decisive;
    var d, all := Join(chunks[..i + 1]), Join(chunks);
    AfterDecision(rule, chunks, i);
    assert all == d + all[|d|..];
    WholePasses(rule, d, all[|d|..]);
    OneChunk(rule, all);
  }

  lemma {:induction false} WholePasses(rule: Rule, d: string, e: string)
    requires Rewrites(rule, d)
    ensures Passed(rule, State("", true), d + e)
            == if Extend(Scan(d), e).Fail? then d + e else Rewritten(rule, d) + e
  {
    hide Scan, Rewrite, CutQuery, Index, ReplaceFirst;
    ScanAppend(d, e);
    assert "" + (d + e) == d + e;
    UrlThere(d);
    var u := CutQuery(Scan(d).url);
    IndexAppend(d, e, u);
    ReplaceAppend(d, e, u, Rewrite(rule, u).value);
  }

  lemma OneChunk(rule: Rule, all: string)
    ensures Output(rule, [all]) == Passed(rule, State("", true), all)
  {
  }

  lemma {:induction false} JoinGrows(chunks: seq<string>, i: nat)
    requires i <= |chunks|
    ensures Join(chunks[..i]) <= Join(chunks)
    decreases |chunks|
  {
    if i == |chunks| {
      assert chunks[..i] == chunks;
    } else {
      assert chunks[..|chunks| - 1][..i] == chunks[..i];
      JoinGrows(chunks[..|chunks| - 1], i);
    }
  }

  /** What more data makes of an endpoint event with an empty URL: an error, or the same again. */
  lemma EmptyUrlAgain(d: string, e: string)
    requires Scan(d).Found?
    ensures Scan(d).url == "" ==>
              && (Decisive(d + e) <==> Extend(Scan(d), e).Fail?)
              && (Decisive(d + e) <==> Scan(d + e).Fail?)
  {
    hide Scan;
    ScanAppend(d, e);
  }

  lemma JoinedSince(chunks: seq<string>, i: nat, j: nat)
    requires i <= j <= |chunks|
    ensures var d, dj := Join(chunks[..i]), Join(chunks[..j]); d <= dj <= Join(chunks) && dj == d + dj[|d|..]
  {
    hide Join;
    assert chunks[..j][..i] == chunks[..i];
    JoinGrows(chunks[..j], i);
    JoinGrows(chunks, j);
  }

  lemma ExtendFailsWithPrefix(r: Scanned, e: string, more: string)
    requires r.Found? && e <= more && Extend(r, e).Fail?
    ensures Extend(r, more).Fail?
  {
  }

  /** The first chunk that decides. */
  lemma FirstDecisive(chunks: seq<string>, i: nat) returns (n: nat)
    requires i <= |chunks| && Undecided(chunks, i) && Decisive(Join(chunks))
    ensures i <= n < |chunks| && DecidedBy(chunks, n)
  {
    hide Decisive;
    n := i;
    assert chunks[..|chunks|] == chunks;
    while !Decisive(Join(chunks[..n + 1]))
      invariant i <= n < |chunks| && Undecided(chunks, n)
      decreases |chunks| - n
    {
      n := n + 1;
    }
  }

  /**
   An endpoint event with an empty URL counts as not found and is found again on every scan, so the
   rest of the response is withheld, whatever it holds, if and only if the data line's LF is not
   followed by CR.
   */
  lemma {:induction false} EmptyUrlWithholds(rule: Rule, chunks: seq<string>, i: nat, d: string)
    requires i <= |chunks| && Undecided(chunks, i) && d == Join(chunks[..i]) && Scan(d).Found?
    ensures d <= Join(chunks)
    ensures Output(rule, chunks) == "" <==> !Extend(Scan(d), Join(chunks)[|d|..]).Fail?
  {
    hide Scan, Decisive, Join, Output, Extend, Rewritten;
    assert !Decisive(d) by { UndecidedRun(chunks, i, i); }
    NotDecided(d);
    JoinedSince(chunks, i, |chunks|);
    var all := Join(chunks);
    assert chunks[..|chunks|] == chunks;
    EmptyUrlAgain(d, all[|d|..]);
    if Extend(Scan(d), all[|d|..]).Fail? {
      // the chunk that makes the error of it passes, and everything behind it
      var n := FirstDecisive(chunks, i);
      JoinedSince(chunks, i, n + 1);
      EmptyUrlAgain(d, Join(chunks[..n + 1])[|d|..]);
      UndecidedRun(chunks, n, n);
      AfterDecision(rule, chunks, n);
      NotEmpty(Join(chunks[..n]), chunks[n]);
    } else {
      forall j | 0 <= j <= |chunks| ensures !Decisive(Join(chunks[..j])) {
        if j > i {
          var dj := Join(chunks[..j]);
          JoinedSince(chunks, i, j);
          EmptyUrlAgain(d, dj[|d|..]);
          if Decisive(dj) { ExtendFailsWithPrefix(Scan(d), dj[|d|..], all[|d|..]); }
        }
      }
      HeldBack(rule, chunks);
    }
  }

  lemma NotDecided(d: string)
    ensures !Decisive(d) && Scan(d).Found? ==> Scan(d).url == ""
  {
    hide Scan;
  }

  lemma NotEmpty(d: string, chunk: string)
    requires Decisive(d + chunk) && !Decisive(d)
    ensures chunk != ""
  {
    hide Decisive;
    assert d + "" == d;
  }

  /**
   Over a whole response the URL of the data line is the occurrence that is replaced if and only if the
   URL, without its query, occurs nowhere before it; and then only the data line is rewritten.
   */
  lemma {:induction false} DataLineRewrittenIff(rule: Rule, chunks: seq<string>, i: nat)
    requires i < |chunks| && DecidedBy(chunks, i) && Rewrites(rule, Join(chunks[..i + 1]))
    ensures var d, all := Join(chunks[..i + 1]), Join(chunks);
            var u, at := CutQuery(Scan(d).url), UrlAt(d);
            && At(all, u, at)
            && (Index(all, u) == at <==> forall j: nat | j < at :: !At(all, u, j))
            && (Index(all, u) == at ==>
                  Output(rule, chunks) == all[..at] + Rewrite(rule, u).value + all[at + |u|..])
  {
    hide Scan, UrlTail, UrlAt, Rewrite, CutQuery, Undecided, Decisive, Index, At, Join, Output;
    var d, all := Join(chunks[..i + 1]), Join(chunks);
    var u, at := CutQuery(Scan(d).url), UrlAt(d);
    RewritesOnce(rule, chunks, i);
    JoinGrows(chunks, i + 1);
    UrlInDataLine(d);
    AtPrefix(d, Scan(d).url, u, at);
    assert all == d + all[|d|..];
    AtWithin(d, u, at);
    AtAppend(d, all[|d|..], u, at);
    FirstIsAtIff(all, u, at);
  }

  lemma AtWithin(s: string, t: string, i: nat)
    requires At(s, t, i)
    ensures i + |t| <= |s|
  {
  }

  lemma FirstIsAtIff(s: string, t: string, at: nat)
    requires At(s, t, at)
    ensures Index(s, t) == at <==> forall j: nat | j < at :: !At(s, t, j)
  {
  }

  /** For a single piece of data the same: where the URL is replaced, and when that is the data line. */
  lemma {:induction false} ReplacedWhere(rule: Rule, d: string)
    requires Rewrites(rule, d)
    ensures var u, at := CutQuery(Scan(d).url), UrlAt(d);
            && At(d, u, at) && 0 <= Index(d, u) <= at
            && (Index(d, u) == at <==> forall j: nat | j < at :: !At(d, u, j))
            && (forall j: nat | At(d, u, j) && j < at :: HasSuffix(Rewritten(rule, d), d[j + |u|..]))
  {
    hide Scan, UrlTail, Rewrite, CutQuery, Index;
    var u, at := CutQuery(Scan(d).url), UrlAt(d);
    UrlInDataLine(d);
    AtPrefix(d, Scan(d).url, u, at);
    FirstIsAtIff(d, u, at);
    UrlThere(d);
    forall j: nat | At(d, u, j) && j < at ensures HasSuffix(Rewritten(rule, d), d[j + |u|..]) {
      BehindReplaced(d, u, Rewrite(rule, u).value, j);
    }
  }

  lemma BehindReplaced(d: string, u: string, n: string, j: nat)
    requires At(d, u, j) && Index(d, u) >= 0
    ensures Index(d, u) <= j && HasSuffix(ReplaceFirst(d, u, n), d[j + |u|..])
  {
    var i := Index(d, u);
    var r := ReplaceFirst(d, u, n);
    assert d[i + |u|..] == d[i + |u|..j + |u|] + d[j + |u|..];
    assert r == (d[..i] + n + d[i + |u|..j + |u|]) + d[j + |u|..];
  }

  /** If it occurs earlier, the data line passes unchanged and the earlier text is rewritten in its place. */
  lemma {:induction false} EarlierTextIsRewritten(rule: Rule, d: string, j: nat)
    requires Rewrites(rule, d) && At(d, CutQuery(Scan(d).url), j)
    requires j < UrlAt(d) && j + |CutQuery(Scan(d).url)| <= UrlAt(d)
    ensures Index(d, CutQuery(Scan(d).url)) <= j && HasSuffix(Rewritten(rule, d), d[UrlAt(d)..])
  {
    hide Scan, UrlTail, Rewrite, CutQuery, Index, Rewritten;
    var u, at := CutQuery(Scan(d).url), UrlAt(d);
    ReplacedWhere(rule, d);
    var r := Rewritten(rule, d);
    var t := d[j + |u|..];
    assert t[at - j - |u|..] == d[at..];
    assert r[|r| - |t|..][|t| - |d[at..]|..] == r[|r| - |d[at..]|..];
  }

  /** An event that is no endpoint, with its data line and an empty line, in front of another event. */
  function OtherEvent(name: string, value: string, next: string): string {
    EventText(name, "\n", ("data: " + value) + ("\n" + ("\n" + next)))
  }

  lemma OtherEventSkipped(name: string, value: string, next: string)
    requires OneLine(name) && WhiteHead(name) == 0 && WhiteTail(name) == 0 && name != "endpoint" && OneLine(value)
    requires next != "" && next[0] != '\n' && next[0] != '\r'
    ensures Scan(OtherEvent(name, value, next)) == Scan(next)
    ensures Scan(next).Found? ==> UrlTail(OtherEvent(name, value, next)) == UrlTail(next)
  {
    hide NextLine, Index, ScanData, Scan, EventName, NextEvent, AfterLine, UrlTail, HasPrefix, EventText;
    var data := ("data: " + value) + ("\n" + ("\n" + next));
    EventTextLine(name, "\n", data);
    LineOf("data: " + value, "\n", "\n" + next);
    SkipOne(next);
    NextEventOf(data, "\n" + next);
    ScanStep(OtherEvent(name, value, next));
    if Scan(next).Found? { UrlTailStep(OtherEvent(name, value, next)); }
  }

  lemma SkipOne(next: string)
    requires next != "" && next[0] != '\n'
    ensures SkipLines("\n" + next, "\n") == next
  {
    assert ("\n" + next)[1..] == next;
  }

  lemma NextEventOf(s: string, fields: string)
    requires NextLine(s).Ends? && AfterLine(s) == fields
    ensures NextEvent(s) == SkipLines(fields, NextLine(s).lineBreak)
  {
  }

  lemma EndpointAlone(url: string)
    requires OneLine(url) && WhiteHead(url) == 0 && WhiteTail(url) == 0
    ensures var e := EndpointEvent("\n", url);
            && Scan(e) == Found(url, "\n", "") && UrlTail(e) == |url| + 1
            && |e| == 23 + |url| && e[0] == 'e'
  {
    hide Scan, UrlTail, NextLine, AfterLine, EventName, Index;
    var e := EndpointEvent("\n", url);
    EventTextLine("endpoint", "\n", ("data: " + url) + "\n");
    assert "" + e == e;
    EndpointIsFound("", url, "\n");
  }

  /** A message event whose data is the same URL: that is what is rewritten, not the endpoint's data line. */
  lemma MessageIsRewritten(url: string)
    requires OneLine(url) && WhiteHead(url) == 0 && WhiteTail(url) == 0
    ensures var d := OtherEvent("m", url, EndpointEvent("\n", url));
            && Scan(d) == Found(url, "\n", "") && UrlAt(d) == 39 + |url|
            && At(d, url, 15) && Index(d, url) <= 15
  {
    hide Scan, UrlTail, Index, EndpointEvent, OtherEvent, At, OneLine, WhiteHead, WhiteTail;
    var event := EndpointEvent("\n", url);
    EndpointAlone(url);
    NameM();
    OtherEventSkipped("m", url, event);
    var a, b := "event: m" + ("\n" + "data: "), "\n" + ("\n" + event);
    MessageParts(url, event, a, b);
    InMiddle(a, url, b);
  }

  lemma NameM()
    ensures OneLine("m") && WhiteHead("m") == 0 && WhiteTail("m") == 0 && "m" != "endpoint"
  {
  }

  lemma InMiddle(a: string, t: string, b: string)
    ensures var s := a + t + b;
            At(s, t, |a|) && Index(s, t) <= |a| && (t != "" && t[0] !in a ==> Index(s, t) == |a|)
  {
    hide Index;
    var s := a + t + b;
    assert s[|a|..|a| + |t|] == t;
    if t != "" && t[0] !in a {
      NotBefore(a, t, s);
      IndexIs(s, t, |a|);
    }
  }

  lemma RewrittenFirst(rule: Rule, d: string, a: string, b: string)
    requires Scan(d).Found? && Scan(d).url != "" && '?' !in Scan(d).url && Rewrite(rule, Scan(d).url).Some?
    requires Index(d, Scan(d).url) == |a| && d == a + Scan(d).url + b
    ensures Rewrites(rule, d) && Rewritten(rule, d) == a + Rewrite(rule, Scan(d).url).value + b
  {
    hide Scan, Rewrite, Index;
    assert CutQuery(Scan(d).url) == Scan(d).url;
  }

  /** The rule that puts "/mcp" in front of every path. */
  const MCP := Rule(true, "/mcp", "")

  lemma UnderMcp(url: string)
    requires url != "" && Index(url, "://") == -1
    ensures Rewrite(MCP, url) == Some(if url[0] == '/' then "/mcp" + url else "/mcp" + "/" + url)
  {
    hide Index;
    assert "/mcp"[|"/mcp"| - 1..] != "/";
    assert url[|""|..] == url;
  }

  lemma UnderMcpExamples()
    ensures Rewrite(MCP, "a") == Some("/mcp/a") && Rewrite(MCP, "/s") == Some("/mcp/s")
  {
    hide Rewrite, Index;
    NoScheme("a");
    NoScheme("/s");
    UnderMcp("a");
    UnderMcp("/s");
    assert "/mcp" + "/" + "a" == "/mcp/a" && "/mcp" + "/s" == "/mcp/s";
  }

  /** With "/s" it is index 15 exactly. */
  lemma MessageExample()
    ensures var d := OtherEvent("m", "/s", EndpointEvent("\n", "/s"));
            Scan(d) == Found("/s", "\n", "") && UrlAt(d) == 41 && Index(d, "/s") == 15
  {
    hide Scan, UrlTail, Index, OtherEvent, EndpointEvent, At;
    assert OneLine("/s") && WhiteHead("/s") == 0 && WhiteTail("/s") == 0;
    MessageIsRewritten("/s");
    var e := EndpointEvent("\n", "/s");
    var a, b := "event: m" + ("\n" + "data: "), "\n" + ("\n" + e);
    MessageParts("/s", e, a, b);
    InMiddle(a, "/s", b);
  }

  /** What the client gets then: the message is changed and the endpoint is not. */
  lemma MessageExampleRewritten()
    ensures var e := EndpointEvent("\n", "/s");
            && Rewrites(MCP, OtherEvent("m", "/s", e))
            && Rewritten(MCP, OtherEvent("m", "/s", e)) == OtherEvent("m", "/mcp/s", e)
  {
    hide Scan, Index, Rewrites, Rewritten, Rewrite, UrlTail, EndpointEvent;
    MessageExample();
    UnderMcpExamples();
    var e := EndpointEvent("\n", "/s");
    var a, b := "event: m" + ("\n" + "data: "), "\n" + ("\n" + e);
    MessageParts("/s", e, a, b);
    MessageParts("/mcp/s", e, a, b);
    hide OtherEvent;
    RewrittenFirst(MCP, OtherEvent("m", "/s", e), a, b);
  }

  lemma MessageParts(value: string, e: string, a: string, b: string)
    requires a == "event: m" + ("\n" + "data: ") && b == "\n" + ("\n" + e)
    ensures OtherEvent("m", value, e) == a + value + b && |a| == 15 && '/' !in a
    ensures |OtherEvent("m", value, e)| == 17 + |value| + |e|
  {
  }

  lemma NoScheme(url: string)
    requires ':' !in url
    ensures Index(url, "://") == -1
  {
    NotBefore(url, "://", url);
  }

  lemma NotBefore(a: string, t: string, s: string)
    requires a <= s && t != "" && t[0] !in a
    ensures forall j: nat | j < |a| :: !At(s, t, j)
  {
    forall j: nat | j < |a| ensures !At(s, t, j) {
      if j + |t| <= |s| { assert s[j..j + |t|][0] == a[j]; }
    }
  }

  /** For the URL "a" the name of the field "data:" is rewritten. */
  lemma FieldNameExample()
    ensures var e := EndpointEvent("\n", "a");
            Scan(e) == Found("a", "\n", "") && UrlAt(e) == 22 && Index(e, "a") == 17
  {
    hide Scan, UrlTail, Index, EndpointEvent, At;
    assert OneLine("a") && WhiteHead("a") == 0 && WhiteTail("a") == 0;
    EndpointAlone("a");
    FieldNameParts();
    InMiddle("event: endpoint\nd", "a", "ta: a\n");
  }

  lemma FieldNameExampleRewritten()
    ensures var e := EndpointEvent("\n", "a");
            Rewrites(MCP, e) && Rewritten(MCP, e) == "event: endpoint\nd/mcp/ata: a\n"
  {
    hide Scan, Index, Rewrites, Rewritten, Rewrite, UrlTail;
    FieldNameExample();
    UnderMcpExamples();
    FieldNameParts();
    hide EndpointEvent;
    RewrittenFirst(MCP, EndpointEvent("\n", "a"), "event: endpoint\nd", "ta: a\n");
    assert "event: endpoint\nd" + "/mcp/a" + "ta: a\n" == "event: endpoint\nd/mcp/ata: a\n";
  }

  lemma FieldNameParts()
    ensures EndpointEvent("\n", "a") == "event: endpoint\nd" + "a" + "ta: a\n"
  {
  }

  lemma {:induction false} JoinFirst(first: string, more: seq<string>)
    ensures Join([first] + more) == first + Join(more)
  {
    if more == [] {
      assert [first] + more == [first] && [first][..0] == [];
    } else {
      var n := |more| - 1;
      assert ([first] + more)[..n + 1] == [first] + more[..n];
      JoinFirst(first, more[..n]);
      ConcatAssoc(first, Join(more[..n]), more[n]);
    }
  }

  /** An endpoint event without a URL: nothing is ever passed on exactly if no CR comes next. */
  lemma {:induction false} EmptyEndpointWithholds(rule: Rule, more: seq<string>)
    ensures Output(rule, [EndpointEvent("\n", "")] + more) == "" <==> !HasPrefix(Join(more), "\r")
  {
    hide Scan, UrlTail, Join, Output;
    var e := EndpointEvent("\n", "");
    var chunks := [e] + more;
    EndpointAlone("");
    JoinFirst(e, more);
    assert chunks[..1] == [e] && chunks[..0] == [];
    JoinOne(e);
    assert Undecided(chunks, 1) by { EmptyScan(); }
    assert Join(chunks)[|e|..] == Join(more);
    assert HasPrefix(Join(more), "\r") <==> Join(more) != "" && Join(more)[0] == '\r';
    EmptyUrlWithholds(rule, chunks, 1, e);
  }

  /** A URL that is left alone, in a second chunk: the client receives that chunk without the event line. */
  lemma CachedIsLostExample(rule: Rule)
    requires !rule.enablePathRewrite
    ensures var chunks := ["event: endpoint\n", "data: /s\n"];
            DecidedBy(chunks, 1) && Output(rule, chunks) == "data: /s\n"
  {
    hide Scan, UrlTail, Output, Index, Join, EndpointEvent;
    var first, second := "event: endpoint\n", "data: /s\n";
    var chunks := [first, second];
    var e := EndpointEvent("\n", "/s");
    TwoChunks(first, second);
    EventLineParts();
    assert OneLine("/s") && WhiteHead("/s") == 0 && WhiteTail("/s") == 0;
    EndpointAlone("/s");
    EventLineAlone();
    EmptyScan();
    assert chunks[..0] == [] && chunks[..1] == [first] && chunks[..2] == chunks;
    assert DecidedBy(chunks, 1);
    AfterDecision(rule, chunks, 1);
  }

  lemma TwoChunks(first: string, second: string)
    ensures Join([first]) == first && Join([first, second]) == first + second && Join([]) == ""
  {
    JoinOne(first);
    assert [first, second][..1] == [first];
  }

  lemma EventLineParts()
    ensures EventText("endpoint", "\n", "") == "event: endpoint\n"
    ensures "event: endpoint\n" + "data: /s\n" == EndpointEvent("\n", "/s")
  {
  }

  lemma EventLineAlone()
    ensures Scan("event: endpoint\n").More?
  {
    hide NextLine, AfterLine, Index, Scan, ScanData, EventName, EventText, HasPrefix;
    assert OneLine("endpoint") && WhiteHead("endpoint") == 0 && WhiteTail("endpoint") == 0;
    assert !RunsOn("\n", "");
    EventTextLine("endpoint", "\n", "");
    EventLineParts();
    EmptyHasNoBreak();
    ScanStep("event: endpoint\n");
  }

  lemma JoinOne(first: string)
    ensures Join([first]) == first && Join([]) == ""
  {
    assert [first][..0] == [];
  }

  lemma EmptyScan()
    ensures Scan("").More?
  {
  }
}
