/**
  The flat-file record format of the cache: one record per line, three fields
  (namespace, key, encoded entry) joined by the two-character splitter "&&",
  each line terminated by a newline. Reading strips the line and splits it the
  way Python's `str.split("&&")` does: at each leftmost, non-overlapping
  occurrence of the splitter.
*/
module RecordCodec {
  import opened Wrappers

  const Splitter: string := "&&"

  /** The whitespace that Python 2's `str.strip()` removes from a byte string. */
  predicate IsSpace(c: char) {
    c == ' ' || c == '\t' || c == '\n' || c == '\r' || c == '\U{0B}' || c == '\U{0C}'
  }

  /** Drops leading whitespace. */
  function TrimLeft(s: string): (r: string)
    ensures |r| <= |s| && r == s[|s| - |r|..]
    ensures r == [] || !IsSpace(r[0])
    ensures forall i :: 0 <= i < |s| - |r| ==> IsSpace(s[i])
    decreases |s|
  {
    if |s| > 0 && IsSpace(s[0]) then TrimLeft(s[1..]) else s
  }

  /** Drops trailing whitespace. */
  function TrimRight(s: string): (r: string)
    ensures |r| <= |s| && r == s[..|r|]
    ensures r == [] || !IsSpace(r[|r| - 1])
    ensures forall i :: |r| <= i < |s| ==> IsSpace(s[i])
    decreases |s|
  {
    if |s| > 0 && IsSpace(s[|s| - 1]) then TrimRight(s[..|s| - 1]) else s
  }

  /** Python's `line.strip()`. */
  function Strip(s: string): string {
    TrimRight(TrimLeft(s))
  }

  /** True when the splitter occurs somewhere in `s`. */
  predicate HasSplitter(s: string) {
    exists i :: 0 <= i < |s| - 1 && s[i] == '&' && s[i + 1] == '&'
  }

  predicate EndsWithAmpersand(s: string) {
    |s| > 0 && s[|s| - 1] == '&'
  }

  /**
    The field sequences that `Split` produces: no field holds the splitter,
    and no field but the last ends with '&' (that '&' and the splitter after
    it would be read as a splitter one character early).
  */
  predicate CleanFields(fs: seq<string>) {
    && |fs| >= 1
    && (forall i :: 0 <= i < |fs| ==> !HasSplitter(fs[i]))
    && (forall i :: 0 <= i < |fs| - 1 ==> !EndsWithAmpersand(fs[i]))
  }

  /** `"&&".join(fs)`. */
  function Join(fs: seq<string>): string
    requires |fs| >= 1
  {
    if |fs| == 1 then fs[0] else fs[0] + Splitter + Join(fs[1..])
  }

  /** `s.split("&&")`: cut at every leftmost non-overlapping splitter. */
  function Split(s: string): (r: seq<string>)
    ensures |r| >= 1
    ensures r[0] <= s
    decreases |s|
  {
    if |s| < 2 then [s]
    else if s[0] == '&' && s[1] == '&' then [""] + Split(s[2..])
    else
      var rest := Split(s[1..]);
      [[s[0]] + rest[0]] + rest[1..]
  }

  lemma JoinCons(f: string, fs: seq<string>)
    requires |fs| >= 1
    ensures Join([f] + fs) == f + Splitter + Join(fs)
  {
    assert ([f] + fs)[1..] == fs;
  }

  lemma PrependAssoc(c: char, f: string, t: string)
    ensures ([c] + f) + Splitter + t == [c] + (f + Splitter + t)
  {
  }

  lemma JoinPrepend(c: char, fs: seq<string>)
    requires |fs| >= 1
    ensures Join([[c] + fs[0]] + fs[1..]) == [c] + Join(fs)
  {
    if |fs| > 1 {
      JoinCons([c] + fs[0], fs[1..]);
      PrependAssoc(c, fs[0], Join(fs[1..]));
    } else {
      assert [[c] + fs[0]] + fs[1..] == [[c] + fs[0]];
    }
  }

  /** Joining the pieces of a split gives back the string: nothing is lost. */
  lemma {:induction false} SplitThenJoin(s: string)
    ensures Join(Split(s)) == s
    decreases |s|
  {
    if |s| < 2 {
    } else if s[0] == '&' && s[1] == '&' {
      SplitThenJoin(s[2..]);
      JoinCons("", Split(s[2..]));
      assert s == "" + Splitter + s[2..];
    } else {
      SplitThenJoin(s[1..]);
      JoinPrepend(s[0], Split(s[1..]));
      assert s == [s[0]] + s[1..];
    }
  }

  /** A field without the splitter is read back as one field. */
  lemma {:induction false} SplitSingleField(f: string)
    requires !HasSplitter(f)
    ensures Split(f) == [f]
    decreases |f|
  {
    if |f| >= 2 {
      assert !(f[0] == '&' && f[1] == '&');
      var t := f[1..];
      assert !HasSplitter(t) by {
        forall i | 0 <= i < |t| - 1
          ensures !(t[i] == '&' && t[i + 1] == '&')
        {
          assert t[i] == f[i + 1] && t[i + 1] == f[i + 2];
        }
      }
      SplitSingleField(t);
      assert [f[0]] + t == f;
    }
  }

  /** A clean non-last field is cut off exactly at the splitter that follows it. */
  lemma {:induction false} SplitAfterField(f: string, t: string)
    requires !HasSplitter(f) && !EndsWithAmpersand(f)
    ensures Split(f + Splitter + t) == [f] + Split(t)
    decreases |f|
  {
    var s := f + Splitter + t;
    if |f| == 0 {
      assert s[2..] == t;
    } else {
      var g := f[1..];
      assert s[0] == f[0];
      if |g| > 0 {
        assert s[1] == f[1];
        assert !(f[0] == '&' && f[1] == '&');
      } else {
        assert f[0] != '&';
      }
      assert !HasSplitter(g) by {
        forall i | 0 <= i < |g| - 1
          ensures !(g[i] == '&' && g[i + 1] == '&')
        {
          assert g[i] == f[i + 1] && g[i + 1] == f[i + 2];
        }
      }
      assert !EndsWithAmpersand(g) by {
        if |g| > 0 { assert g[|g| - 1] == f[|f| - 1]; }
      }
      assert s[1..] == g + Splitter + t;
      SplitAfterField(g, t);
      assert [f[0]] + g == f;
    }
  }

  lemma CleanTail(fs: seq<string>)
    requires |fs| > 1 && CleanFields(fs)
    ensures CleanFields(fs[1..])
  {
    var rest := fs[1..];
    forall i | 0 <= i < |rest| ensures !HasSplitter(rest[i]) {
      assert rest[i] == fs[i + 1];
    }
    forall i | 0 <= i < |rest| - 1 ensures !EndsWithAmpersand(rest[i]) {
      assert rest[i] == fs[i + 1];
    }
  }

  /** Splitting a join of clean fields gives back exactly those fields. */
  lemma {:induction false} JoinThenSplit(fs: seq<string>)
    requires CleanFields(fs)
    ensures Split(Join(fs)) == fs
    decreases |fs|
  {
    if |fs| == 1 {
      SplitSingleField(fs[0]);
    } else {
      var rest := fs[1..];
      assert fs == [fs[0]] + rest;
      CleanTail(fs);
      JoinThenSplit(rest);
      JoinCons(fs[0], rest);
      SplitAfterField(fs[0], Join(rest));
    }
  }

  /** Every piece `Split` returns is clean, so `Split` and `Join` are inverse bijections. */
  lemma {:induction false} SplitIsClean(s: string)
    ensures CleanFields(Split(s))
    decreases |s|
  {
    if |s| < 2 {
      assert !HasSplitter(s);
    } else if s[0] == '&' && s[1] == '&' {
      SplitIsClean(s[2..]);
      CleanAfterEmpty(Split(s[2..]));
    } else {
      SplitIsClean(s[1..]);
      CleanAfterChar(s);
    }
  }

  /** An empty field in front of clean fields keeps them clean. */
  lemma CleanAfterEmpty(rest: seq<string>)
    requires |rest| >= 1 && CleanFields(rest)
    ensures CleanFields([""] + rest)
  {
    var r := [""] + rest;
    forall i | 0 <= i < |r| ensures !HasSplitter(r[i]) {
      if i > 0 { assert r[i] == rest[i - 1]; }
    }
    forall i | 0 <= i < |r| - 1 ensures !EndsWithAmpersand(r[i]) {
      if i > 0 { assert r[i] == rest[i - 1]; }
    }
  }

  /** The split of a string not starting with the splitter is clean when its tail's split is. */
  lemma CleanAfterChar(s: string)
    requires |s| >= 2 && !(s[0] == '&' && s[1] == '&')
    requires CleanFields(Split(s[1..]))
    ensures CleanFields(Split(s))
  {
    var rest := Split(s[1..]);
    var head := [s[0]] + rest[0];
    assert Split(s) == [head] + rest[1..];
    // rest[0] is a prefix of s[1..], so its first character (if any) is s[1].
    assert |rest[0]| > 0 ==> rest[0][0] == s[1];
    assert !HasSplitter(rest[0]);
    NoSplitterAfterChar(s[0], rest[0]);
    if |rest| > 1 {
      assert !EndsWithAmpersand(head) by {
        if |rest[0]| > 0 {
          assert head[|head| - 1] == rest[0][|rest[0]| - 1];
        } else {
          // rest[0] is empty and not last, so s[1..] starts with the splitter.
          assert s[1] == '&';
        }
      }
    }
    CleanReplaceHead(head, rest);
  }

  /** One character before a splitter-free field keeps it free, unless both are `&`. */
  lemma NoSplitterAfterChar(c: char, f: string)
    requires !HasSplitter(f)
    requires |f| > 0 ==> !(c == '&' && f[0] == '&')
    ensures !HasSplitter([c] + f)
  {
    var head := [c] + f;
    forall i | 0 <= i < |head| - 1
      ensures !(head[i] == '&' && head[i + 1] == '&')
    {
      if i > 0 {
        assert head[i] == f[i - 1] && head[i + 1] == f[i];
      }
    }
  }

  /** Replacing the first of some clean fields by another suitable field keeps them clean. */
  lemma CleanReplaceHead(h: string, rest: seq<string>)
    requires |rest| >= 1 && CleanFields(rest)
    requires !HasSplitter(h) && (|rest| > 1 ==> !EndsWithAmpersand(h))
    ensures CleanFields([h] + rest[1..])
  {
    var r := [h] + rest[1..];
    forall i | 0 <= i < |r| ensures !HasSplitter(r[i]) {
      if i > 0 { assert r[i] == rest[i]; }
    }
    forall i | 0 <= i < |r| - 1 ensures !EndsWithAmpersand(r[i]) {
      if i > 0 { assert r[i] == rest[i]; }
    }
  }

  /** Position just past the first newline of `text`, or its length if there is none. */
  function LineLength(text: string): (n: nat)
    requires |text| > 0
    ensures 1 <= n <= |text|
    ensures forall i :: 0 <= i < n - 1 ==> text[i] != '\n'
    ensures n < |text| ==> text[n - 1] == '\n'
    decreases |text|
  {
    if text[0] == '\n' || |text| == 1 then 1 else 1 + LineLength(text[1..])
  }

  /**
    Iterating over a file opened for reading: each line keeps its newline,
    and the last line may lack one.
  */
  function Lines(text: string): (r: seq<string>)
    decreases |text|
  {
    if |text| == 0 then []
    else
      var n := LineLength(text);
      [text[..n]] + Lines(text[n..])
  }

  function Concat(ls: seq<string>): string {
    if |ls| == 0 then "" else ls[0] + Concat(ls[1..])
  }

  /** Concatenating the lines of a text gives back the text. */
  lemma {:induction false} LinesCover(text: string)
    ensures Concat(Lines(text)) == text
    decreases |text|
  {
    if |text| > 0 {
      var n := LineLength(text);
      LinesCover(text[n..]);
      ConcatCons(text[..n], Lines(text[n..]));
      assert text == text[..n] + text[n..];
    }
  }

  lemma ConcatCons(l: string, ls: seq<string>)
    ensures Concat([l] + ls) == l + Concat(ls)
  {
    assert ([l] + ls)[1..] == ls;
  }

  /** A text that starts with one complete line splits off that line first. */
  lemma LinesOfCompleteLine(line: string, rest: string)
    requires |line| > 0 && line[|line| - 1] == '\n'
    requires forall i :: 0 <= i < |line| - 1 ==> line[i] != '\n'
    ensures Lines(line + rest) == [line] + Lines(rest)
  {
    var text := line + rest;
    var n := LineLength(text);
    assert forall i :: 0 <= i < |line| ==> text[i] == line[i];
    assert n == |line|;
    assert text[..n] == line;
    assert text[n..] == rest;
  }

  /** The three fields of one record line. */
  datatype Fields = Fields(ns: string, key: string, value: string)

  /** `"&&".join([ns, key, value]) + "\n"`. */
  function EncodeLine(f: Fields): string {
    Join([f.ns, f.key, f.value]) + "\n"
  }

  /** `line.strip().split("&&")`, accepted only when it has exactly three fields. */
  function DecodeLine(line: string): (r: Option<Fields>)
    ensures r.Some? <==> |Split(Strip(line))| == 3
  {
    var parts := Split(Strip(line));
    if |parts| == 3 then Some(Fields(parts[0], parts[1], parts[2])) else None
  }

  predicate NoNewline(s: string) {
    forall i :: 0 <= i < |s| ==> s[i] != '\n'
  }

  /**
    The fields a line can carry unchanged: no newline anywhere, the splitter
    nowhere, no '&' ending the namespace or the key, no whitespace at the very
    start of the line or at the very end of the value.
  */
  predicate Encodable(f: Fields) {
    && NoNewline(f.ns) && NoNewline(f.key) && NoNewline(f.value)
    && CleanFields([f.ns, f.key, f.value])
    && (f.ns == [] || !IsSpace(f.ns[0]))
    && (f.value == [] || !IsSpace(f.value[|f.value| - 1]))
  }

  /** An encoded line is one line: its only newline is the last character. */
  lemma EncodeLineIsOneLine(f: Fields)
    requires Encodable(f)
    ensures |EncodeLine(f)| > 0 && EncodeLine(f)[|EncodeLine(f)| - 1] == '\n'
    ensures forall i :: 0 <= i < |EncodeLine(f)| - 1 ==> EncodeLine(f)[i] != '\n'
  {
    var j := Join([f.ns, f.key, f.value]);
    JoinNoNewline(f);
    var line := j + "\n";
    assert forall i :: 0 <= i < |j| ==> line[i] == j[i];
  }

  /** Fields without newlines join into a text without newlines. */
  lemma JoinNoNewline(f: Fields)
    requires NoNewline(f.ns) && NoNewline(f.key) && NoNewline(f.value)
    ensures NoNewline(Join([f.ns, f.key, f.value]))
  {
    JoinThree(f.ns, f.key, f.value);
    var j := Join([f.ns, f.key, f.value]);
    forall i | 0 <= i < |j| ensures j[i] != '\n' {
      if i < |f.ns| { assert j[i] == f.ns[i]; }
      else if i < |f.ns| + 2 { }
      else if i < |f.ns| + 2 + |f.key| { assert j[i] == f.key[i - |f.ns| - 2]; }
      else if i < |f.ns| + 4 + |f.key| { }
      else { assert j[i] == f.value[i - |f.ns| - 4 - |f.key|]; }
    }
  }


  /** Stripping an encoded line removes exactly its newline. */
  lemma StripEncodedLine(f: Fields)
    requires Encodable(f)
    ensures Strip(EncodeLine(f)) == Join([f.ns, f.key, f.value])
  {
    JoinEdges(f);
    StripNewlineAfter(Join([f.ns, f.key, f.value]));
  }

  /** An encodable record's joined fields neither start nor end with whitespace. */
  lemma JoinEdges(f: Fields)
    requires Encodable(f)
    ensures var j := Join([f.ns, f.key, f.value]); |j| > 0 && !IsSpace(j[0]) && !IsSpace(j[|j| - 1])
  {
    JoinThree(f.ns, f.key, f.value);
    var j := Join([f.ns, f.key, f.value]);
    // The joined text starts with the namespace's first character or with '&'.
    if |f.ns| > 0 { assert j[0] == f.ns[0]; } else { assert j[0] == '&'; }
    // It ends with the value's last character or with '&'.
    if |f.value| > 0 { assert j[|j| - 1] == f.value[|f.value| - 1]; } else { assert j[|j| - 1] == '&'; }
  }

  /** Stripping a text with no whitespace at either edge, plus a newline, removes just the newline. */
  lemma StripNewlineAfter(j: string)
    requires |j| > 0 && !IsSpace(j[0]) && !IsSpace(j[|j| - 1])
    ensures Strip(j + "\n") == j
  {
    var line := j + "\n";
    assert line[0] == j[0];
    assert TrimLeft(line) == line;
    var t := TrimRight(line);
    assert line[|j| - 1] == j[|j| - 1];
    assert t == j[..|t|];
    assert j[..|j|] == j;
  }

  /** Decoding an encoded line gives back its three fields. */
  lemma DecodeEncode(f: Fields)
    requires Encodable(f)
    ensures DecodeLine(EncodeLine(f)) == Some(f)
  {
    StripEncodedLine(f);
    JoinThenSplit([f.ns, f.key, f.value]);
  }

  /** The three pieces of a joined string, located by position. */
  lemma JoinThree(a: string, b: string, c: string)
    ensures Join([a, b, c]) == a + Splitter + b + Splitter + c
  {
    JoinCons(a, [b, c]);
    JoinCons(b, [c]);
  }

  /** Fields cut out of a newline-free string hold no newline. */
  lemma FieldsWithoutNewline(f: Fields)
    requires NoNewline(Join([f.ns, f.key, f.value]))
    ensures NoNewline(f.ns) && NoNewline(f.key) && NoNewline(f.value)
  {
    var t := Join([f.ns, f.key, f.value]);
    JoinThree(f.ns, f.key, f.value);
    forall i | 0 <= i < |f.ns| ensures f.ns[i] != '\n' { assert f.ns[i] == t[i]; }
    forall i | 0 <= i < |f.key| ensures f.key[i] != '\n' { assert f.key[i] == t[|f.ns| + 2 + i]; }
    forall i | 0 <= i < |f.value| ensures f.value[i] != '\n' {
      assert f.value[i] == t[|f.ns| + 4 + |f.key| + i];
    }
  }

  /** A joined string that is already stripped starts and ends with no whitespace field edge. */
  lemma StrippedEdges(line: string, f: Fields)
    requires Strip(line) == Join([f.ns, f.key, f.value])
    ensures f.ns == [] || !IsSpace(f.ns[0])
    ensures f.value == [] || !IsSpace(f.value[|f.value| - 1])
  {
    var l := TrimLeft(line);
    var t := Strip(line);
    JoinThree(f.ns, f.key, f.value);
    if |f.ns| > 0 {
      assert t[0] == f.ns[0];
      assert t[0] == l[0];
    }
    if |f.value| > 0 {
      assert t[|t| - 1] == f.value[|f.value| - 1];
    }
  }

  /**
    A line that decodes is, up to surrounding whitespace, the encoding of its
    fields, and those fields are encodable unless the line held a newline
    before its end.
  */
  lemma EncodeDecode(line: string, f: Fields)
    requires DecodeLine(line) == Some(f)
    ensures EncodeLine(f) == Strip(line) + "\n"
    ensures NoNewline(Strip(line)) ==> Encodable(f)
  {
    var t := Strip(line);
    SplitThenJoin(t);
    assert Split(t) == [f.ns, f.key, f.value];
    SplitIsClean(t);
    StrippedEdges(line, f);
    if NoNewline(t) {
      FieldsWithoutNewline(f);
    }
  }

  /**
    "No field holds the splitter" is not enough for the round trip: a namespace
    ending in '&' has no splitter, yet its line is read back as a shorter
    namespace and a key that gained the '&'.
  */
  lemma AmpersandBeforeSplitterMisread(p: string, key: string, value: string)
    requires Encodable(Fields(p, "&" + key, value))
    ensures !HasSplitter(p + "&") && !HasSplitter(key) && !HasSplitter(value)
    ensures DecodeLine(EncodeLine(Fields(p + "&", key, value))) == Some(Fields(p, "&" + key, value))
  {
    var k' := "&" + key;
    CleanThree(p, k', value);
    NoSplitterAfterFirst(k');
    assert k'[1..] == key;
    NoSplitterWithAmpersand(p);
    AmpersandMovesAcross(p, key, value);
    DecodeEncode(Fields(p, k', value));
  }

  /** The facts about each field that `CleanFields` gives for a three-field record. */
  lemma CleanThree(a: string, b: string, c: string)
    requires CleanFields([a, b, c])
    ensures !HasSplitter(a) && !EndsWithAmpersand(a)
    ensures !HasSplitter(b) && !EndsWithAmpersand(b)
    ensures !HasSplitter(c)
  {
    var fs := [a, b, c];
    assert fs[0] == a && fs[1] == b && fs[2] == c;
  }

  /** Moving an `&` from the end of the namespace to the front of the key writes the same line. */
  lemma AmpersandMovesAcross(p: string, key: string, value: string)
    ensures EncodeLine(Fields(p + "&", key, value)) == EncodeLine(Fields(p, "&" + key, value))
  {
    var y := Join([key, value]);
    JoinCons(p + "&", [key, value]);
    JoinCons(p, ["&" + key, value]);
    JoinCons(key, [value]);
    JoinCons("&" + key, [value]);
    assert Join(["&" + key, value]) == "&" + y by {
      AmpersandAssoc("", key, Splitter + value);
    }
    AmpersandAssoc(p, "", Splitter + y);
  }

  lemma AmpersandAssoc(x: string, y: string, z: string)
    ensures (x + "&") + (y + z) == x + (("&" + y) + z)
    ensures ("&" + y) + z == "&" + (y + z)
  {
  }

  /** Dropping the first character cannot create a splitter. */
  lemma NoSplitterAfterFirst(s: string)
    requires |s| > 0 && !HasSplitter(s)
    ensures !HasSplitter(s[1..])
  {
    var t := s[1..];
    forall i | 0 <= i < |t| - 1 ensures !(t[i] == '&' && t[i + 1] == '&') {
      assert t[i] == s[i + 1] && t[i + 1] == s[i + 2];
    }
  }

  /** A splitter-free string not ending in `&` stays splitter-free with one `&` appended. */
  lemma NoSplitterWithAmpersand(p: string)
    requires !HasSplitter(p) && !EndsWithAmpersand(p)
    ensures !HasSplitter(p + "&")
  {
    var p' := p + "&";
    forall i | 0 <= i < |p'| - 1 ensures !(p'[i] == '&' && p'[i + 1] == '&') {
      if i < |p| - 1 {
        assert p'[i] == p[i] && p'[i + 1] == p[i + 1];
      } else {
        assert p'[i] == p[|p| - 1];
      }
    }
  }

  /** The whitespace condition is needed too: `strip()` eats a leading space of the namespace. */
  lemma LeadingSpaceLost(ns: string, key: string, value: string)
    requires Encodable(Fields(ns, key, value))
    ensures DecodeLine(EncodeLine(Fields(" " + ns, key, value))) == Some(Fields(ns, key, value))
  {
    JoinThree(" " + ns, key, value);
    JoinThree(ns, key, value);
    var line := EncodeLine(Fields(ns, key, value));
    assert EncodeLine(Fields(" " + ns, key, value)) == " " + line;
    assert (" " + line)[1..] == line;
    assert Strip(" " + line) == Strip(line);
    DecodeEncode(Fields(ns, key, value));
  }
}
