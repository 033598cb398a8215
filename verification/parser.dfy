/**
 * `m3u8Parser`: one forward pass over the playlist text split on "\n".
 * A line containing `#EXTINF` opens a new record and appends it to the output;
 * the record stays "current" (it is the last element of the output) until the
 * next such line. A line containing `http-referrer` sets the current record's
 * referer; any other line that does not start with `#` overwrites its link.
 */
module Parser {
  import opened Text
  import opened Seqs
  import opened Records

  const Marker: string := "#EXTINF"
  const RefererTag: string := "http-referrer"
  const RefererPrefix: string := "http-referrer="

  /** A line that opens a record: it contains `#EXTINF` anywhere. */
  predicate IsMarker(line: string) {
    Contains(line, Marker)
  }

  /** Inside a record, a line that sets the referer. */
  predicate IsRefererLine(line: string) {
    !IsMarker(line) && Contains(line, RefererTag)
  }

  /** Inside a record, a line that sets the link (blank lines included). */
  predicate IsLinkLine(line: string) {
    !IsMarker(line) && !Contains(line, RefererTag) && !StartsWith(line, "#")
  }

  /** The record an `#EXTINF` line opens: name `line.split(",")[1]`, referer and link null. */
  function NewRecord(line: string): Channel {
    Channel(SecondField(line, ","), Null, Null, Undefined)
  }

  /** The effect of one line on the records parsed so far; the current record is the last one. */
  function Step(chs: seq<Channel>, line: string): seq<Channel> {
    if IsMarker(line) then
      chs + [NewRecord(line)]
    else if Contains(line, RefererTag) && chs != [] then
      chs[|chs| - 1 := chs[|chs| - 1].(referer := SecondField(line, RefererPrefix))]
    else if !StartsWith(line, "#") && chs != [] then
      chs[|chs| - 1 := chs[|chs| - 1].(link := Str(line))]
    else
      chs
  }

  /** The records produced by a sequence of lines, one `Step` per line. */
  function ParseLines(lines: seq<string>): seq<Channel>
    decreases |lines|
  {
    if lines == [] then []
    else Step(ParseLines(lines[..|lines| - 1]), lines[|lines| - 1])
  }

  /** The records produced by a playlist text. */
  function Parse(file: string): seq<Channel> {
    ParseLines(Split(file, '\n'))
  }

  /** `m3u8Parser(file)`: the loop of the source, with `currentChannel` as the last output element. */
  method M3u8Parser(file: string) returns (channels: seq<Channel>)
    ensures channels == Parse(file)
    ensures |channels| == |Filter(Split(file, '\n'), IsMarker)|
    ensures forall k :: 0 <= k < |channels| ==>
      channels[k].name == SecondField(Filter(Split(file, '\n'), IsMarker)[k], ",")
  {
    var lines := Split(file, '\n');
    channels := [];
    var hasCurrent := false;
    for i := 0 to |lines|
      invariant channels == ParseLines(lines[..i])
      invariant hasCurrent <==> channels != []
    {
      var line := lines[i];
      if Contains(line, Marker) {
        channels := channels + [NewRecord(line)];
        hasCurrent := true;
      } else if Contains(line, RefererTag) && hasCurrent {
        var current := channels[|channels| - 1];
        channels := channels[|channels| - 1 := current.(referer := SecondField(line, RefererPrefix))];
      } else if !StartsWith(line, "#") && hasCurrent {
        var current := channels[|channels| - 1];
        channels := channels[|channels| - 1 := current.(link := Str(line))];
      }
      assert lines[..i + 1][..i] == lines[..i];
    }
    assert lines[..|lines|] == lines;
    ParseNames(lines);
  }

  /** The record a marker line `m` and the marker-free lines `body` after it produce. */
  function Record(m: string, body: seq<string>): Channel {
    var r := LastMatch(body, IsRefererLine);
    var l := LastMatch(body, IsLinkLine);
    Channel(
      SecondField(m, ","),
      if r < 0 then Null else SecondField(body[r], RefererPrefix),
      if l < 0 then Null else Str(body[l]),
      Undefined)
  }

  /** Empty input, the parameter's default, yields no records. */
  lemma ParseEmpty()
    ensures Parse("") == []
  {
    assert Split("", '\n') == [""];
    assert !Contains("", Marker);
  }

  /** One record per marker line, in source order, named after the second comma field of its line. */
  lemma {:induction false} ParseNames(lines: seq<string>)
    ensures |ParseLines(lines)| == |Filter(lines, IsMarker)|
    ensures forall k :: 0 <= k < |ParseLines(lines)| ==>
      ParseLines(lines)[k].name == SecondField(Filter(lines, IsMarker)[k], ",")
      && ParseLines(lines)[k].state == Undefined
    decreases |lines|
  {
    if lines != [] {
      var init, x := lines[..|lines| - 1], lines[|lines| - 1];
      ParseNames(init);
      assert lines == init + [x];
      FilterConcat(init, [x], IsMarker);
      var p, f := ParseLines(init), Filter(init, IsMarker);
      if IsMarker(x) {
        assert Filter([x], IsMarker) == [x];
        assert Filter(lines, IsMarker) == f + [x];
        assert ParseLines(lines) == p + [NewRecord(x)];
      } else {
        assert Filter([x], IsMarker) == [];
        assert Filter(lines, IsMarker) == f;
        StepKeepsNames(p, x);
      }
    }
  }

  /** A line that is not a marker changes no record's name or state and adds no record. */
  lemma StepKeepsNames(chs: seq<Channel>, line: string)
    requires !IsMarker(line)
    ensures |Step(chs, line)| == |chs|
    ensures forall k :: 0 <= k < |chs| ==>
      Step(chs, line)[k].name == chs[k].name && Step(chs, line)[k].state == chs[k].state
  {
  }

  /** Lines before the first marker never affect the output. */
  lemma {:induction false} LeadingLinesIgnored(pre: seq<string>, rest: seq<string>)
    requires forall k :: 0 <= k < |pre| ==> !IsMarker(pre[k])
    ensures ParseLines(pre + rest) == ParseLines(rest)
    decreases |rest|
  {
    if rest == [] {
      assert pre + rest == pre;
      NoMarkerNoRecords(pre);
    } else {
      var init := rest[..|rest| - 1];
      assert (pre + rest)[..|pre + rest| - 1] == pre + init;
      LeadingLinesIgnored(pre, init);
    }
  }

  /** Without a marker line there is never a current record. */
  lemma {:induction false} NoMarkerNoRecords(lines: seq<string>)
    requires forall k :: 0 <= k < |lines| ==> !IsMarker(lines[k])
    ensures ParseLines(lines) == []
    decreases |lines|
  {
    if lines != [] {
      NoMarkerNoRecords(lines[..|lines| - 1]);
    }
  }

  /**
   * A marker line followed by marker-free lines adds exactly `Record(m, body)`:
   * the name from `m`, the referer from the last referer line, the link from the
   * last line that is neither a referer line nor starts with `#` (blank lines
   * count), each null when there is no such line. A marker line that also
   * contains `http-referrer` is only a marker.
   */
  lemma {:induction false} ParseSegment(prefix: seq<string>, m: string, body: seq<string>)
    requires IsMarker(m)
    requires forall k :: 0 <= k < |body| ==> !IsMarker(body[k])
    ensures ParseLines(prefix + [m] + body) == ParseLines(prefix) + [Record(m, body)]
    decreases |body|
  {
    var all := prefix + [m] + body;
    if body == [] {
      assert all[..|all| - 1] == prefix;
    } else {
      var init, x := body[..|body| - 1], body[|body| - 1];
      assert all[..|all| - 1] == prefix + [m] + init;
      assert all[|all| - 1] == x;
      ParseSegment(prefix, m, init);
      assert body[..|body| - 1] == init;
      var p := ParseLines(prefix);
      var before := p + [Record(m, init)];
      assert ParseLines(all) == Step(before, x);
      assert !IsMarker(x);
      if Contains(x, RefererTag) {
        assert IsRefererLine(x) && !IsLinkLine(x);
        assert Step(before, x) == p + [Record(m, init).(referer := SecondField(x, RefererPrefix))];
      } else if !StartsWith(x, "#") {
        assert IsLinkLine(x) && !IsRefererLine(x);
        assert Step(before, x) == p + [Record(m, init).(link := Str(x))];
      } else {
        assert !IsLinkLine(x) && !IsRefererLine(x);
      }
    }
  }
}
