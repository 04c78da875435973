/** Calendar lines as Exchange-style exporters write them, and what the
    rewriter makes of them. Lines are written as concatenations of their
    fields: the property or parameter, the timezone name, the rest. */
module Scenarios {
  import opened Text
  import opened Aliases
  import opened Rewriter

  /** A start time declared in Brussels time under its Windows name gets the
      IANA identifier in its `TZID` parameter, and counts once, whatever
      follows the name (the time stamp, further lines without spaces). */
  lemma StartTimeParameter(line: string, rest: string)
    requires line == "DTSTART;" + "TZID=" + "Romance Standard Time" + rest
    requires ' ' !in rest
    ensures RewriteAll(TzMapping, line) == "DTSTART;" + "TZID=" + "Europe/Brussels" + rest
    ensures Found(TzMapping, line) == 1
  {
    TableIsSafe();
    SingleReference(TzMapping, 0, "DTSTART;", Param, rest);
  }

  /** A `TZID` property, as in a `VTIMEZONE` block, is rewritten as well,
      wherever it stands in space-free surroundings. */
  lemma TimezoneProperty(text: string, before: string, after: string)
    requires text == before + "TZID:" + "Romance Standard Time" + after
    requires ' ' !in before && ' ' !in after
    ensures RewriteAll(TzMapping, text) == before + "TZID:" + "Europe/Brussels" + after
    ensures Found(TzMapping, text) == 1
  {
    TableIsSafe();
    SingleReference(TzMapping, 0, before, Header, after);
  }

  /** Without a `Z` in the text there is no `TZID` and so no reference. */
  lemma NoMarkerLetter(t: string)
    requires 'Z' !in t
    ensures NoReferences(TzMapping, t)
  {
    forall i | 0 <= i < |TzMapping|
      ensures !Contains(t, Param + TzMapping[i].0) && !Contains(t, Header + TzMapping[i].0)
    {
      assert (Param + TzMapping[i].0)[1] == 'Z' && (Header + TzMapping[i].0)[1] == 'Z';
      ContainsChars(t, Param + TzMapping[i].0, 'Z');
      ContainsChars(t, Header + TzMapping[i].0, 'Z');
    }
  }

  /** A Windows name in prose, outside any `TZID` context, is counted but
      left as it is: a reference needs the `Z` of `TZID`, and the text
      around the name has none. */
  lemma NameInProse(text: string, before: string, after: string)
    requires text == before + "Romance Standard Time" + after
    requires 'Z' !in before && 'Z' !in after
    ensures RewriteAll(TzMapping, text) == text
    ensures Found(TzMapping, text) >= 1
  {
    var k := TzMapping[0].0;
    assert 'Z' !in k;
    NoMarkerLetter(before + k + after);
    NoReferencesUnchanged(TzMapping, before + k + after);
    ContainsMiddle(before, k, after);
  }

  /** The description of a meeting that names its timezone. */
  lemma DescriptionLine(line: string, rest: string)
    requires line == "DESCRIPTION:Meeting in " + "Romance Standard Time" + rest
    requires 'Z' !in rest
    ensures RewriteAll(TzMapping, line) == line
    ensures Found(TzMapping, line) >= 1
  {
    assert 'Z' !in "DESCRIPTION:Meeting in ";
    NameInProse(line, "DESCRIPTION:Meeting in ", rest);
  }

  /** A letter that singles out a Windows name of the table: the `c` of
      `Romance`, the initial of every other name. */
  predicate Distinctive(c: char) {
    c == 'c' || c == 'W' || c == 'G' || c == 'E' || c == 'C' || c == 'F' || c == 'P' || c == 'M'
  }

  /** A text with no distinctive letter holds no Windows name of the table. */
  lemma NoDistinctiveLetter(t: string)
    requires forall j :: 0 <= j < |t| ==> !Distinctive(t[j])
    ensures forall i :: 0 <= i < |TzMapping| ==> !Contains(t, TzMapping[i].0)
  {
    forall i | 0 <= i < |TzMapping| ensures !Contains(t, TzMapping[i].0) {
      var k := TzMapping[i].0;
      if i == 0 { assert k[5] == 'c'; ContainsChars(t, k, 'c'); }
      else if i == 1 { assert k[0] == 'W'; ContainsChars(t, k, 'W'); }
      else if i == 2 { assert k[0] == 'G'; ContainsChars(t, k, 'G'); }
      else if i == 3 { assert k[0] == 'E'; ContainsChars(t, k, 'E'); }
      else if i == 4 || i == 6 { assert k[0] == 'C'; ContainsChars(t, k, 'C'); }
      else if i == 5 || i == 9 { assert k[0] == 'F'; ContainsChars(t, k, 'F'); }
      else if i == 7 { assert k[0] == 'P'; ContainsChars(t, k, 'P'); }
      else { assert k[0] == 'M'; ContainsChars(t, k, 'M'); }
    }
  }

  /** Characters of an iCalendar time stamp and of the separators around it. */
  predicate StampChar(c: char) {
    '0' <= c <= '9' || c == 'T' || c == ':'
  }

  /** A time stamp adds no distinctive letter. */
  lemma StampAppended(a: string, rest: string)
    requires forall j :: 0 <= j < |a| ==> !Distinctive(a[j])
    requires forall j :: 0 <= j < |rest| ==> StampChar(rest[j])
    ensures forall j :: 0 <= j < |a + rest| ==> !Distinctive((a + rest)[j])
  {
    forall j | 0 <= j < |a + rest| ensures !Distinctive((a + rest)[j]) {
      if j >= |a| {
        assert (a + rest)[j] == rest[j - |a|] && StampChar(rest[j - |a|]);
      }
    }
  }

  /** A timezone the table does not list passes through unchanged and is
      not counted. */
  lemma UnlistedZone(line: string, rest: string)
    requires line == "DTSTART;TZID=Tokyo Standard Time" + rest
    requires forall j :: 0 <= j < |rest| ==> StampChar(rest[j])
    ensures RewriteAll(TzMapping, line) == line
    ensures Found(TzMapping, line) == 0
  {
    var a := "DTSTART;TZID=Tokyo Standard Time";
    assert forall j :: 0 <= j < |a| ==> !Distinctive(a[j]);
    StampAppended(a, rest);
    NoDistinctiveLetter(line);
    NoNamesUnchanged(TzMapping, line);
  }

  /** Text without a space holds no Windows name, since every one of them
      has a space, and passes through unchanged. */
  lemma SpaceFreeUnchanged(t: string)
    requires ' ' !in t
    ensures RewriteAll(TzMapping, t) == t
    ensures Found(TzMapping, t) == 0
  {
    TableIsSafe();
    forall i | 0 <= i < |TzMapping| ensures !Contains(t, TzMapping[i].0) {
      ContainsChars(t, TzMapping[i].0, ' ');
    }
    NoNamesUnchanged(TzMapping, t);
  }

  /** The description line of the event below holds no reference. */
  lemma MeetingNote(description: string)
    requires description == "DESCRIPTION:Meeting in " + "Romance Standard Time" + "\n"
    ensures NoReferences(TzMapping, description)
  {
    assert 'Z' !in "DESCRIPTION:Meeting in " && 'Z' !in "Romance Standard Time" && 'Z' !in "\n";
    NoMarkerLetter(description);
  }

  /** In an event, the start line is rewritten while the description line
      after it, which names the same zone in prose, is kept byte for byte,
      and so are the lines that follow when they hold no space (more time
      stamps) or no `Z` (a summary, a location). */
  lemma EventLines(start: string, stamp: string, description: string, tail: string)
    requires start == "DTSTART;" + "TZID=" + "Romance Standard Time" + stamp
    requires ' ' !in stamp && stamp != [] && stamp[|stamp| - 1] == '\n'
    requires description == "DESCRIPTION:Meeting in " + "Romance Standard Time" + "\n"
    requires ' ' !in tail || 'Z' !in tail
    ensures RewriteAll(TzMapping, start + description + tail)
      == "DTSTART;" + "TZID=" + "Europe/Brussels" + stamp + description + tail
  {
    TableIsSafe();
    StartTimeParameter(start, stamp);
    MeetingNote(description);
    assert start[|start| - 1] == '\n';
    assert description[|description| - 1] == '\n';
    LineKeptVerbatim(TzMapping, start, description, tail);
    if ' ' !in tail {
      SpaceFreeUnchanged(tail);
    } else {
      NoMarkerLetter(tail);
      NoReferencesUnchanged(TzMapping, tail);
    }
  }
}
