/** The header of a CockroachDB log line: level, date, time, goroutine and source. */
module LogHeader {
  import opened Text
  import opened Wrappers

  predicate IsDigit(c: char) { '0' <= c <= '9' }

  /** A level letter, six digits and a space. */
  predicate HasPrefix(line: string) {
    && |line| >= 8
    && line[0] in {'F', 'E', 'I', 'W'}
    && (forall i :: 1 <= i <= 6 ==> IsDigit(line[i]))
    && line[7] == ' '
  }

  /** At most n parts, cut at the first separators. */
  function SplitN(s: string, sep: char, n: nat): seq<string>
    requires n >= 1
    decreases n
  {
    var c := Cut(s, sep);
    if n == 1 || !c.found then [s] else [c.before] + SplitN(c.after, sep, n - 1)
  }

  /** The source module in the part of the line from its fourth field on. */
  function Module(tail: string): string {
    var c := Cut(tail, '@');
    if c.found then Cut(c.after, ':').before else Cut(tail, ':').before
  }

  /** Level and source of a line with a header. */
  function Header(line: string): Option<(char, string)> {
    if !HasPrefix(line) then None
    else
      var fields := SplitN(line, ' ', 4);
      Some((line[0], if |fields| == 4 then Module(fields[3]) else ""))
  }

  ghost predicate AllDigits(s: string) {
    forall i :: 0 <= i < |s| ==> '0' <= s[i] <= '9'
  }

  /** One of the four levels, six digits and a space begin the line. */
  ghost predicate BeginsWithHeader(line: string) {
    exists level, date, rest ::
      level in {'F', 'E', 'I', 'W'} && AllDigits(date) && |date| == 6 && line == [level] + date + " " + rest
  }

  /** Exactly those lines have a header. */
  lemma HeaderIff(line: string)
    ensures Header(line).Some? <==> BeginsWithHeader(line)
    ensures Header(line).Some? ==> Header(line).value.0 == line[0]
  {
    if HasPrefix(line) {
      var date, rest := line[1..7], line[8..];
      assert forall i :: 0 <= i < 6 ==> date[i] == line[i + 1];
      assert line == [line[0]] + date + " " + rest;
      assert AllDigits(date);
    }
    if level, date, rest :|
      level in {'F', 'E', 'I', 'W'} && AllDigits(date) && |date| == 6 && line == [level] + date + " " + rest
    {
      assert forall i :: 1 <= i <= 6 ==> line[i] == date[i - 1];
      assert line[7] == ' ';
    }
  }

  /** The series of a scan: events by level and source. */
  class EventCounter {
    var counts: map<(char, string), nat>

    /** Counts a line that has a header and matches the scan's pattern. */
    method Parse(line: string, matches: string -> bool)
      modifies this
      ensures counts ==
              if Header(line).None? || !matches(line) then old(counts)
              else
                var k := Header(line).value;
                old(counts)[k := (if k in old(counts) then old(counts)[k] else 0) + 1]
      ensures !BeginsWithHeader(line) ==> counts == old(counts)
    {
      HeaderIff(line);
      hide BeginsWithHeader, Cut, SplitN;
      if !HasPrefix(line) {
        return;
      }
      if matches(line) {
        var fields := SplitN(line, ' ', 4);
        var source := "";
        if |fields| == 4 {
          var c := Cut(fields[3], '@');
          if c.found {
            source := Cut(c.after, ':').before;
          } else {
            source := Cut(fields[3], ':').before;
          }
        }
        var k := (line[0], source);
        counts := counts[k := (if k in counts then counts[k] else 0) + 1];
      }
    }
  }

  /** A line in the documented format, up to its source. */
  function Line(level: char, date: string, time: string, goid: string, tail: string): string {
    [level] + date + " " + time + " " + goid + " " + tail
  }

  ghost predicate WellFormed(level: char, date: string, time: string, goid: string) {
    && level in {'F', 'E', 'I', 'W'}
    && |date| == 6 && (forall i :: 0 <= i < 6 ==> IsDigit(date[i]))
    && ' ' !in time && ' ' !in goid
  }

  /** Everything after the goroutine ends up in the fourth field. */
  lemma HeaderOfLine(level: char, date: string, time: string, goid: string, tail: string)
    requires WellFormed(level, date, time, goid)
    ensures Header(Line(level, date, time, goid, tail)) == Some((level, Module(tail)))
  {
    var line := Line(level, date, time, goid, tail);
    var first := [level] + date;
    assert forall i :: 1 <= i <= 6 ==> line[i] == date[i - 1];
    assert line[7] == ' ';
    assert ' ' !in first by { assert forall i :: 0 <= i < 6 ==> first[i + 1] == date[i]; }
    hide SplitN, Module;
    assert line == first + [' '] + (time + [' '] + (goid + [' '] + tail));
    FourFields(first, time, goid, tail);
  }

  lemma FourFields(a: string, b: string, c: string, d: string)
    requires ' ' !in a && ' ' !in b && ' ' !in c
    ensures SplitN(a + [' '] + (b + [' '] + (c + [' '] + d)), ' ', 4) == [a, b, c, d]
  {
    hide Cut;
    CutAt(c, ' ', d);
    assert SplitN(c + [' '] + d, ' ', 2) == [c, d];
    CutAt(b, ' ', c + [' '] + d);
    assert SplitN(b + [' '] + (c + [' '] + d), ' ', 3) == [b, c, d];
    CutAt(a, ' ', b + [' '] + (c + [' '] + d));
  }

  /** With a channel, the parser returns level and file. */
  lemma ParsesWithChannel(level: char, date: string, time: string, goid: string, channel: string, file: string,
      rest: string)
    requires WellFormed(level, date, time, goid) && '@' !in channel && ':' !in file
    ensures Header(Line(level, date, time, goid, channel + "@" + file + ":" + rest)) == Some((level, file))
  {
    HeaderOfLine(level, date, time, goid, channel + "@" + file + ":" + rest);
    assert channel + "@" + file + ":" + rest == channel + ['@'] + (file + ":" + rest);
    CutAt(channel, '@', file + ":" + rest);
    CutAt(file, ':', rest);
  }

  /** Without one it returns the file exactly when neither the file nor the rest of the line has an "@", or only the
      rest has and what follows the first one reads as the same file. */
  lemma ParsesWithoutChannelIff(level: char, date: string, time: string, goid: string, file: string, rest: string)
    requires WellFormed(level, date, time, goid) && ':' !in file
    ensures Header(Line(level, date, time, goid, file + ":" + rest)) == Some((level, file)) <==>
            '@' !in file && ('@' !in rest || Cut(Cut(rest, '@').after, ':').before == file)
  {
    hide Cut, Header, Line, WellFormed, Module;
    HeaderOfLine(level, date, time, goid, file + ":" + rest);
    if '@' in file { AtInFile(file, rest); }
    else if '@' in rest { AtInRest(file, rest); }
    else { NoAt(file, rest); }
  }

  lemma CutFoundIff(s: string, c: char)
    ensures Cut(s, c).found <==> c in s
  {}

  lemma AtInFile(file: string, rest: string)
    requires ':' !in file && '@' in file
    ensures Module(file + ":" + rest) == Cut(file, '@').after != file
  {
    var f := Cut(file, '@');
    CutFoundIff(file, '@');
    hide Cut;
    var tail := f.after + ":" + rest;
    assert file + ":" + rest == f.before + ['@'] + tail;
    CutAt(f.before, '@', tail);
    CutAt(f.after, ':', rest);
    assert |f.after| < |file|;
  }

  lemma AtInRest(file: string, rest: string)
    requires ':' !in file && '@' !in file && '@' in rest
    ensures Module(file + ":" + rest) == Cut(Cut(rest, '@').after, ':').before
  {
    var c := Cut(rest, '@');
    CutFoundIff(rest, '@');
    hide Cut;
    var before := file + ":" + c.before;
    assert file + ":" + rest == before + ['@'] + c.after;
    CutAt(before, '@', c.after);
  }

  lemma NoAt(file: string, rest: string)
    requires ':' !in file && '@' !in file && '@' !in rest
    ensures Module(file + ":" + rest) == file
  {
    hide Cut;
    CutNowhere(file + ":" + rest, '@');
    assert file + ":" + rest == file + [':'] + rest;
    CutAt(file, ':', rest);
  }

  /** A header that ends before the source is counted without one. */
  lemma ShortHeader(level: char, date: string, time: string)
    requires level in {'F', 'E', 'I', 'W'} && |date| == 6 && AllDigits(date) && ' ' !in time
    ensures Header([level] + date + " " + time) == Some((level, ""))
  {
    NoSpace(level, date);
    ShortLine(level, date, time);
    hide HasPrefix, SplitN, AllDigits;
    FewFields([level] + date, time);
  }

  lemma ShortHeaderWithGoroutine(level: char, date: string, time: string, goid: string)
    requires level in {'F', 'E', 'I', 'W'} && |date| == 6 && AllDigits(date) && ' ' !in time && ' ' !in goid
    ensures Header([level] + date + " " + (time + " " + goid)) == Some((level, ""))
  {
    NoSpace(level, date);
    ShortLine(level, date, time + " " + goid);
    hide HasPrefix, SplitN, AllDigits;
    FewerFields([level] + date, time, goid);
  }

  lemma NoSpace(level: char, date: string)
    requires level != ' ' && AllDigits(date)
    ensures ' ' !in [level] + date
  {}

  lemma ShortLine(level: char, date: string, rest: string)
    requires level in {'F', 'E', 'I', 'W'} && |date| == 6 && AllDigits(date)
    ensures HasPrefix([level] + date + " " + rest) && ([level] + date + " " + rest)[0] == level
  {
    var line := [level] + date + " " + rest;
    assert forall i :: 1 <= i <= 6 ==> line[i] == date[i - 1];
    assert line[7] == ' ';
  }

  lemma FewFields(a: string, b: string)
    requires ' ' !in a && ' ' !in b
    ensures SplitN(a + " " + b, ' ', 4) == [a, b]
  {
    hide Cut;
    CutAt(a, ' ', b);
    CutNowhere(b, ' ');
    assert a + " " + b == a + [' '] + b;
    assert SplitN(b, ' ', 3) == [b];
  }

  lemma FewerFields(a: string, b: string, c: string)
    requires ' ' !in a && ' ' !in b && ' ' !in c
    ensures SplitN(a + " " + (b + " " + c), ' ', 4) == [a, b, c]
  {
    hide Cut;
    CutNowhere(c, ' ');
    assert SplitN(c, ' ', 2) == [c];
    CutAt(b, ' ', c);
    assert b + " " + c == b + [' '] + c;
    assert SplitN(b + " " + c, ' ', 3) == [b, c];
    CutAt(a, ' ', b + " " + c);
    assert a + " " + (b + " " + c) == a + [' '] + (b + " " + c);
  }

  /** A source without a line number is taken whole, with or without a channel. */
  lemma SourceWithoutNumber(level: char, date: string, time: string, goid: string, channel: string, file: string)
    requires WellFormed(level, date, time, goid) && '@' !in channel && ':' !in file && '@' !in file
    ensures Header(Line(level, date, time, goid, channel + "@" + file)) == Some((level, file))
    ensures Header(Line(level, date, time, goid, file)) == Some((level, file))
  {
    HeaderOfLine(level, date, time, goid, channel + "@" + file);
    HeaderOfLine(level, date, time, goid, file);
    hide Cut, Header, Line, WellFormed;
    assert channel + "@" + file == channel + ['@'] + file;
    CutAt(channel, '@', file);
    CutNowhere(file, ':');
    CutNowhere(file, '@');
  }
}
