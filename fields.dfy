/** Header fields, shared by requests and responses: the
    std::map<std::string, std::string> both classes keep, the "key: value"
    lines they write, and the line loop both readers run over the header
    section.

    A std::map is kept sorted by key and is iterated in ascending key order
    (std::string's `<`, byte by byte). It is modelled as a sequence of
    fields whose keys strictly ascend; ToMap gives its view as a map. */
module Fields {
  import opened Text
  import opened Streams

  datatype Field = Field(key: string, value: string)

  // ---------------------------------------------------------------------
  // The key order of std::map<std::string, ...>

  /** std::string's `<`: lexicographic, character by character, a proper
      prefix coming first. */
  predicate Less(a: string, b: string) {
    if a == [] then b != []
    else if b == [] then false
    else a[0] < b[0] || (a[0] == b[0] && Less(a[1..], b[1..]))
  }

  /** `Less` is the order std::string compares by: `a` is below `b` when it
      is a proper prefix of `b`, or when at the first position where they
      differ its character is the smaller one. */
  lemma {:induction false} LessLexicographic(a: string, b: string)
    ensures Less(a, b) <==>
      (|a| < |b| && a == b[..|a|]) ||
      exists i :: 0 <= i < |a| && i < |b| && a[..i] == b[..i] && a[i] < b[i]
    decreases |a|
  {
    if a != [] && b != [] {
      LessLexicographic(a[1..], b[1..]);
      if Less(a, b) && a[0] == b[0] && !(a[0] < b[0]) {
        if |a| - 1 < |b| - 1 && a[1..] == b[1..][..|a| - 1] {
          assert a == [a[0]] + a[1..] && b[..|a|] == [b[0]] + b[1..][..|a| - 1];
        } else {
          var j :| 0 <= j < |a| - 1 && j < |b| - 1 && a[1..][..j] == b[1..][..j] && a[1..][j] < b[1..][j];
          assert a[..j + 1] == [a[0]] + a[1..][..j] && b[..j + 1] == [b[0]] + b[1..][..j];
          assert a[j + 1] < b[j + 1];
        }
      }
      if |a| < |b| && a == b[..|a|] {
        assert a[0] == b[0] && a[1..] == b[1..][..|a| - 1];
      }
      if exists i :: 0 <= i < |a| && i < |b| && a[..i] == b[..i] && a[i] < b[i] {
        var i :| 0 <= i < |a| && i < |b| && a[..i] == b[..i] && a[i] < b[i];
        if i > 0 {
          assert a[0] == a[..i][0] == b[..i][0] == b[0];
          assert a[1..][..i - 1] == a[..i][1..] == b[..i][1..] == b[1..][..i - 1];
          assert a[1..][i - 1] < b[1..][i - 1];
        }
      }
    }
  }

  lemma {:induction false} LessIrreflexive(a: string)
    ensures !Less(a, a)
  {
    if a != [] {
      LessIrreflexive(a[1..]);
    }
  }

  lemma {:induction false} LessTotal(a: string, b: string)
    requires a != b
    ensures Less(a, b) || Less(b, a)
  {
    if a != [] && b != [] && a[0] == b[0] {
      assert a == [a[0]] + a[1..] && b == [b[0]] + b[1..];
      LessTotal(a[1..], b[1..]);
    }
  }

  lemma {:induction false} LessTransitive(a: string, b: string, c: string)
    requires Less(a, b) && Less(b, c)
    ensures Less(a, c)
  {
    if a != [] && a[0] == b[0] && b[0] == c[0] {
      LessTransitive(a[1..], b[1..], c[1..]);
    }
  }

  /** Every key of `fs` is above `k`. */
  predicate Above(k: string, fs: seq<Field>) {
    forall i :: 0 <= i < |fs| ==> Less(k, fs[i].key)
  }

  /** The keys strictly ascend: the iteration order of a std::map. */
  predicate Sorted(fs: seq<Field>) {
    forall i, j :: 0 <= i < j < |fs| ==> Less(fs[i].key, fs[j].key)
  }

  // ---------------------------------------------------------------------
  // Map operations

  /** The fields as a map from key to value. */
  function ToMap(fs: seq<Field>): map<string, string> {
    if fs == [] then map[] else ToMap(fs[1..])[fs[0].key := fs[0].value]
  }

  /** A key below every key of `fs` is not among them. */
  lemma {:induction false} AboveNotIn(k: string, fs: seq<Field>)
    requires Above(k, fs)
    ensures k !in ToMap(fs)
  {
    if fs != [] {
      LessIrreflexive(k);
      AboveNotIn(k, fs[1..]);
    }
  }

  /** std::map::find: the value stored under `k`, None standing for end(). */
  function Lookup(fs: seq<Field>, k: string): (r: Option<string>)
    ensures r.Some? <==> k in ToMap(fs)
    ensures r.Some? ==> r.value == ToMap(fs)[k]
  {
    if fs == [] then None
    else if fs[0].key == k then Some(fs[0].value)
    else Lookup(fs[1..], k)
  }

  /** `fields[k] = v` on a std::map: inserts `k` at its place in key order,
      or replaces the value already stored under it. */
  function Put(fs: seq<Field>, k: string, v: string): (r: seq<Field>)
    ensures ToMap(r) == ToMap(fs)[k := v]
  {
    if fs == [] then [Field(k, v)]
    else if fs[0].key == k then [Field(k, v)] + fs[1..]
    else if Less(k, fs[0].key) then [Field(k, v)] + fs
    else [fs[0]] + Put(fs[1..], k, v)
  }

  /** Put keeps the keys in ascending order. */
  lemma {:induction false} PutSorted(fs: seq<Field>, k: string, v: string)
    requires Sorted(fs)
    ensures Sorted(Put(fs, k, v))
    ensures forall a :: Above(a, fs) && Less(a, k) ==> Above(a, Put(fs, k, v))
  {
    if fs == [] {
    } else if fs[0].key == k {
    } else if Less(k, fs[0].key) {
      forall j | 0 <= j < |fs|
        ensures Less(k, fs[j].key)
      {
        if j > 0 {
          LessTransitive(k, fs[0].key, fs[j].key);
        }
      }
    } else {
      LessTotal(k, fs[0].key);
      PutSorted(fs[1..], k, v);
      assert Above(fs[0].key, fs[1..]);
    }
  }

  // ---------------------------------------------------------------------
  // Writing fields: `out << key << ": " << value << "\r\n"` per entry

  function FieldLine(f: Field): string {
    f.key + ": " + f.value + "\r\n"
  }

  /** The header lines written for `fs`, in its (ascending key) order. */
  function FieldLines(fs: seq<Field>): string {
    if fs == [] then [] else FieldLine(fs[0]) + FieldLines(fs[1..])
  }

  /** Writing two runs of fields one after the other writes their lines
      one after the other. */
  lemma {:induction false} FieldLinesAppend(xs: seq<Field>, ys: seq<Field>)
    ensures FieldLines(xs + ys) == FieldLines(xs) + FieldLines(ys)
    decreases |xs|
  {
    if xs != [] {
      assert (xs + ys)[0] == xs[0] && (xs + ys)[1..] == xs[1..] + ys;
      FieldLinesAppend(xs[1..], ys);
      Associative(FieldLine(xs[0]), FieldLines(xs[1..]), FieldLines(ys));
    } else {
      assert xs + ys == ys;
    }
  }

  /** Writing one more field appends its line: what a loop over the map
      that writes each entry in turn relies on. */
  lemma {:induction false} FieldLinesSnoc(fs: seq<Field>, i: nat)
    requires i < |fs|
    ensures FieldLines(fs[..i + 1]) == FieldLines(fs[..i]) + FieldLine(fs[i])
  {
    if i > 0 {
      assert fs[..i + 1][1..] == fs[1..][..i];
      assert fs[..i][1..] == fs[1..][..i - 1];
      FieldLinesSnoc(fs[1..], i - 1);
    } else {
      assert fs[..1] == [fs[0]];
    }
  }

  // ---------------------------------------------------------------------
  // Reading fields

  /** What a header line is taken as: no ':' (the line is skipped), a
      first ':' that is the last character (`substr(colon + 2)` is past the
      end and throws std::out_of_range), or a key and value. */
  datatype FieldSplit = NoColon | ColonLast | KeyValue(key: string, value: string)

  /** Splits a header line at its first ':'; the value starts two
      characters later, skipping the ':' and the character after it. */
  function SplitField(line: string): (r: FieldSplit)
    ensures r.NoColon? <==> ':' !in line
    ensures r.ColonLast? <==> line != [] && line[|line| - 1] == ':' && ':' !in line[..|line| - 1]
    ensures r.KeyValue? ==> ':' !in r.key && |r.key| + 2 <= |line|
                            && line == r.key + [':', line[|r.key| + 1]] + r.value
  {
    match Find(line, ':')
    case None => NoColon
    case Some(c) =>
      if c + 2 > |line| then ColonLast
      else
        assert line == line[..c] + [':', line[c + 1]] + line[c + 2..];
        KeyValue(line[..c], line[c + 2..])
  }

  /** How the header loop ends: it reached the line "\r" or the end of the
      input, leaving the fields and the stream; or a line threw, leaving
      the fields as they were at that point. */
  datatype Scan = Scanned(fields: seq<Field>, rest: Stream) | Threw(fields: seq<Field>)

  /** The header loop of both readers:
        while (std::getline(stream, line) && line != "\r") { ... }
      Each line is split at its first ':' and stored with `fields[key] =
      value`, so a later duplicate key overwrites an earlier one; lines
      without ':' are skipped. Nothing is ever removed. */
  function ParseFields(st: Stream, fs: seq<Field>): (r: Scan)
    ensures ToMap(fs).Keys <= ToMap(r.fields).Keys
    decreases st.Measure()
  {
    var got := Getline(st, '\n', []);
    if !got.ok || got.text == "\r" then Scanned(fs, got.rest)
    else
      match SplitField(got.text)
      case NoColon => ParseFields(got.rest, fs)
      case ColonLast => Threw(fs)
      case KeyValue(key, value) => ParseFields(got.rest, Put(fs, key, value))
  }

  // ---------------------------------------------------------------------
  // Reading back written fields

  /** Fields whose lines read back as themselves: no key holds ':' or a
      line break, and no value holds a line break. */
  predicate Writable(fs: seq<Field>) {
    forall i :: 0 <= i < |fs| ==> ':' !in fs[i].key && '\n' !in fs[i].key && '\n' !in fs[i].value
  }

  /** The fields a reader stores for the lines of `fs`: each value comes
      back with the '\r' of its line end, since getline splits at '\n'. */
  function Reread(acc: seq<Field>, fs: seq<Field>): seq<Field>
    decreases |fs|
  {
    if fs == [] then acc else Reread(Put(acc, fs[0].key, fs[0].value + "\r"), fs[1..])
  }

  /** A map with "\r" appended to every value. */
  function WithCR(m: map<string, string>): map<string, string> {
    map k | k in m :: m[k] + "\r"
  }

  /** Storing a key and then merging a map without it is merging and then
      storing. */
  lemma UpdateThenUnion(m: map<string, string>, t: map<string, string>, k: string, v: string)
    requires k !in t
    ensures m[k := v] + t == m + t[k := v]
  {
  }

  /** Storing the first field and then the rest stores them all. */
  lemma RereadStep(acc: seq<Field>, fs: seq<Field>)
    requires Sorted(fs) && fs != []
    ensures ToMap(Put(acc, fs[0].key, fs[0].value + "\r")) + WithCR(ToMap(fs[1..]))
         == ToMap(acc) + WithCR(ToMap(fs))
  {
    var f, rest := fs[0], fs[1..];
    var t := WithCR(ToMap(rest));
    assert f.key !in t by {
      assert Above(f.key, rest);
      AboveNotIn(f.key, rest);
    }
    assert WithCR(ToMap(fs)) == t[f.key := f.value + "\r"];
    UpdateThenUnion(ToMap(acc), t, f.key, f.value + "\r");
  }

  /** The header loop stores every written field, its value with "\r"
      appended. */
  lemma {:induction false} RereadMap(acc: seq<Field>, fs: seq<Field>)
    requires Sorted(fs)
    ensures ToMap(Reread(acc, fs)) == ToMap(acc) + WithCR(ToMap(fs))
    decreases |fs|
  {
    if fs != [] {
      assert Sorted(fs[1..]);
      RereadMap(Put(acc, fs[0].key, fs[0].value + "\r"), fs[1..]);
      RereadStep(acc, fs);
    }
  }

  /** A line "key: value" with no ':' in the key splits back into them. */
  lemma SplitWritten(key: string, value: string)
    requires ':' !in key
    ensures SplitField(key + ": " + value) == KeyValue(key, value)
  {
    var line := key + ": " + value;
    assert line == key + [':'] + (" " + value);
    FindFirst(key, ':', " " + value);
    assert line[|key| + 2..] == value;
  }

  /** One written line reads back as its field. */
  lemma ScanFieldLine(st: Stream, f: Field, post: string, acc: seq<Field>)
    requires st.good && st.unread == FieldLine(f) + post
    requires ':' !in f.key && '\n' !in f.key && '\n' !in f.value
    ensures ParseFields(st, acc) == ParseFields(Stream(post, true), Put(acc, f.key, f.value + "\r"))
  {
    var line := f.key + ": " + (f.value + "\r");
    assert st.unread == line + ['\n'] + post;
    assert '\n' !in line by {
      assert line == f.key + [':', ' '] + f.value + ['\r'];
    }
    GetlineLine(st, '\n', [], line, post);
    SplitWritten(f.key, f.value + "\r");
    assert line != "\r" by {
      assert |line| >= 3;
    }
  }

  /** The header loop reads back the lines written for `fs`, storing each
      field in turn, and leaves the stream just after them. */
  lemma {:induction false} ScanFieldLines(st: Stream, fs: seq<Field>, post: string, acc: seq<Field>)
    requires st.good && st.unread == FieldLines(fs) + post && Writable(fs)
    ensures ParseFields(st, acc) == ParseFields(Stream(post, true), Reread(acc, fs))
    decreases |fs|
  {
    if fs != [] {
      var f, rest := fs[0], fs[1..];
      var acc' := Put(acc, f.key, f.value + "\r");
      assert st.unread == FieldLine(f) + (FieldLines(rest) + post);
      ScanFieldLine(st, f, FieldLines(rest) + post, acc);
      assert Writable(rest);
      ScanFieldLines(Stream(FieldLines(rest) + post, true), rest, post, acc');
      assert Reread(acc, fs) == Reread(acc', rest);
    } else {
      assert st == Stream(post, true);
    }
  }

  /** The header loop keeps the keys in ascending order. */
  lemma {:induction false} ParseFieldsSorted(st: Stream, fs: seq<Field>)
    requires Sorted(fs)
    ensures Sorted(ParseFields(st, fs).fields)
    decreases st.Measure()
  {
    var got := Getline(st, '\n', []);
    if got.ok && got.text != "\r" {
      match SplitField(got.text)
      case NoColon => ParseFieldsSorted(got.rest, fs);
      case ColonLast =>
      case KeyValue(key, value) =>
        PutSorted(fs, key, value);
        ParseFieldsSorted(got.rest, Put(fs, key, value));
    }
  }

  /** The line "\r" ends the header section; the stream stays good. */
  lemma ScanStopsAtBlank(rest: string, fs: seq<Field>)
    ensures ParseFields(Stream("\r\n" + rest, true), fs) == Scanned(fs, Stream(rest, true))
  {
    GetlineLine(Stream("\r\n" + rest, true), '\n', [], "\r", rest);
  }

  /** A line without ':' is skipped. */
  lemma ScanSkipsLine(line: string, rest: string, fs: seq<Field>)
    requires ':' !in line && '\n' !in line && line != "\r"
    ensures ParseFields(Stream(line + "\n" + rest, true), fs) == ParseFields(Stream(rest, true), fs)
  {
    GetlineLine(Stream(line + "\n" + rest, true), '\n', [], line, rest);
  }

  /** A line whose first ':' is its last character makes the loop throw,
      keeping the fields stored so far. */
  lemma ScanThrowsOnBareColon(key: string, rest: string, fs: seq<Field>)
    requires ':' !in key && '\n' !in key
    ensures ParseFields(Stream(key + ":\n" + rest, true), fs) == Threw(fs)
  {
    var line := key + ":";
    assert key + ":\n" + rest == line + "\n" + rest;
    GetlineLine(Stream(line + "\n" + rest, true), '\n', [], line, rest);
    assert line[..|line| - 1] == key;
  }

  // ---------------------------------------------------------------------
  // What both writers put after the header lines

  /** A non-empty body is announced by a "Content-length" line giving its
      length in decimal, then comes the blank line and the body; an empty
      body adds nothing at all, not even the blank line. */
  function ContentSection(body: string): (r: string)
    ensures r == [] <==> body == []
    ensures |body| <= |r| && r[|r| - |body|..] == body
  {
    if body == [] then [] else FieldLine(Field("Content-length", NatToDecimal(|body|))) + "\r\n" + body
  }

  /** The map the header loop builds from written header lines and the
      section after them: the earlier fields, then the written ones with
      "\r" appended to each value, then the length of a non-empty body. */
  function WrittenMap(acc: seq<Field>, fs: seq<Field>, body: string): map<string, string> {
    var m := ToMap(acc) + WithCR(ToMap(fs));
    if body == [] then m else m["Content-length" := NatToDecimal(|body|) + "\r"]
  }

  /** Reading back the section after the header lines: the length line is
      stored like any other, and the blank line ends the loop in front of
      the body; without a body the loop runs into the end of the input. */
  lemma ReadContentSection(body: string, acc: seq<Field>)
    ensures ParseFields(Stream(ContentSection(body), true), acc)
         == if body == [] then Scanned(acc, Stream([], false))
            else Scanned(Put(acc, "Content-length", NatToDecimal(|body|) + "\r"), Stream(body, true))
  {
    if body != [] {
      var length := Field("Content-length", NatToDecimal(|body|));
      var section := ContentSection(body);
      assert section == FieldLine(length) + ("\r\n" + body);
      assert ':' !in length.key && '\n' !in length.key && '\n' !in length.value by {
        LengthKeyPlain();
        DigitsPlain(length.value);
      }
      ScanFieldLine(Stream(section, true), length, "\r\n" + body, acc);
      ScanStopsAtBlank(body, Put(acc, length.key, length.value + "\r"));
    }
  }

  lemma LengthKeyPlain()
    ensures ':' !in "Content-length" && '\n' !in "Content-length"
  {
  }

  lemma DigitsPlain(ds: string)
    requires AllDigits(ds)
    ensures '\n' !in ds
  {
  }

  /** Reading back written header lines and the section after them: the
      loop stores every field and stops at the blank line in front of a
      non-empty body, or at the end of the input when there is no body. */
  lemma ReadWrittenHeaders(fs: seq<Field>, body: string, acc: seq<Field>)
    requires Sorted(fs) && Writable(fs)
    ensures var r := ParseFields(Stream(FieldLines(fs) + ContentSection(body), true), acc);
            r.Scanned? && ToMap(r.fields) == WrittenMap(acc, fs, body)
            && r.rest == (if body == [] then Stream([], false) else Stream(body, true))
  {
    var st := Stream(FieldLines(fs) + ContentSection(body), true);
    ScanFieldLines(st, fs, ContentSection(body), acc);
    RereadMap(acc, fs);
    ReadContentSection(body, Reread(acc, fs));
  }
}
