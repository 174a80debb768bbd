/**
 * The text-to-dictionary step at the end of `process_image`
 * (randapp/utils/image_processing.py): every line of the OCR text that holds
 * a colon is cut at its first colon, and the trimmed halves become a key and
 * its value; a later line with the same key overwrites the earlier value.
 */
module ColonParser {
  import opened Seqs
  import opened Text
  import opened OrderedDict

  /** The number of colons in `s`. */
  function Colons(s: string): nat {
    multiset(s)[':']
  }

  /**
   * `key, value = line.split(':', 1)` followed by `key.strip()` and
   * `value.strip()`: the key holds no colon, both halves are trimmed, and the
   * value keeps every colon of the line but the first.
   */
  function ParseLine(line: string): (e: Entry)
    requires ':' in line
    ensures ':' !in e.0
    ensures IsTrimmed(e.0) && IsTrimmed(e.1)
    ensures Colons(e.1) + 1 == Colons(line)
  {
    var (key, value) := SplitFirst(line, ':');
    StripKeeps(key, ':');
    StripKeeps(value, ':');
    assert multiset(line) == multiset(key) + multiset([':']) + multiset(value);
    (Strip(key), Strip(value))
  }

  /** A trimmed key without colons and a trimmed value, joined by a colon, parse back to themselves. */
  lemma ParseLineOf(k: string, v: string)
    requires ':' !in k && IsTrimmed(k) && IsTrimmed(v)
    ensures ':' in k + [':'] + v
    ensures ParseLine(k + [':'] + v) == (k, v)
  {
    assert (k + [':'] + v)[|k|] == ':';
    SplitFirstOf(k, v, ':');
    StripTrimmed(k);
    StripTrimmed(v);
  }

  /** A line that begins with a colon gives the empty key and the trimmed rest as its value. */
  lemma ParseLeadingColon(v: string)
    ensures ':' in [':'] + v
    ensures ParseLine([':'] + v) == ("", Strip(v))
  {
    assert ([':'] + v)[0] == ':';
    assert [':'] + v == [] + [':'] + v;
    SplitFirstOf([], v, ':');
    assert Strip([]) == [];
  }

  /** Only the first colon separates: `"a: b:c"` gives the key `"a"` and the value `"b:c"`. */
  lemma ParseLaterColons()
    ensures ParseLine("a: b:c") == ("a", "b:c")
  {
    var line := "a: b:c";
    assert line == "a" + [':'] + " b:c";
    SplitFirstOf("a", " b:c", ':');
    StripTrimmed("a");
    assert " b:c" == [' '] + "b:c" + [];
    StripPadded([' '], "b:c", []);
  }

  predicate HasColon(line: string) {
    ':' in line
  }

  /** The assignments `extracted_dict[key.strip()] = value.strip()` of the loop, in order. */
  function Entries(lines: seq<string>): (es: seq<Entry>)
    ensures |es| <= |lines|
  {
    if |lines| == 0 then []
    else
      var line := lines[|lines| - 1];
      Entries(lines[..|lines| - 1]) + (if ':' in line then [ParseLine(line)] else [])
  }

  lemma EntriesLast(lines: seq<string>, i: nat)
    requires i < |lines|
    ensures Entries(lines[..i + 1])
         == Entries(lines[..i]) + (if ':' in lines[i] then [ParseLine(lines[i])] else [])
  {
    assert lines[..i + 1][..i] == lines[..i];
  }

  /** One entry per line that holds a colon, and no other. */
  lemma {:induction false} EntriesCount(lines: seq<string>)
    ensures |Entries(lines)| == |Filter(lines, HasColon)|
  {
    if |lines| > 0 {
      EntriesCount(lines[..|lines| - 1]);
    }
  }

  /** Every entry comes from a line that holds a colon. */
  lemma {:induction false} EntriesFrom(lines: seq<string>, e: Entry)
    requires e in Entries(lines)
    ensures exists i :: 0 <= i < |lines| && ':' in lines[i] && ParseLine(lines[i]) == e
  {
    var pre := lines[..|lines| - 1];
    var line := lines[|lines| - 1];
    if e in Entries(pre) {
      EntriesFrom(pre, e);
      var i :| 0 <= i < |pre| && ':' in pre[i] && ParseLine(pre[i]) == e;
      assert lines[i] == pre[i];
    } else {
      assert ':' in line && ParseLine(line) == e;
    }
  }

  /** Every line that holds a colon contributes its entry. */
  lemma {:induction false} EntriesOf(lines: seq<string>, i: nat)
    requires i < |lines| && ':' in lines[i]
    ensures ParseLine(lines[i]) in Entries(lines)
  {
    var pre := lines[..|lines| - 1];
    if i < |pre| {
      EntriesOf(pre, i);
      assert pre[i] == lines[i];
    }
  }

  /** The dictionary `process_image` returns for the OCR text `text`. */
  function Parsed(text: string): Dict {
    PutAll(Entries(Split(text, '\n')))
  }

  /** The loop of `process_image` over the lines of the OCR text (image_processing.py 49-55). */
  method ParseText(text: string) returns (extractedDict: Dict)
    ensures extractedDict == Parsed(text)
  {
    var lines := Split(text, '\n');
    extractedDict := Empty;
    for i := 0 to |lines|
      invariant extractedDict == PutAll(Entries(lines[..i]))
    {
      var line := lines[i];
      EntriesLast(lines, i);
      if ':' in line {
        var (key, value) := SplitFirst(line, ':');
        assert ParseLine(line) == (Strip(key), Strip(value));
        PutAllAppend(Entries(lines[..i]), ParseLine(line));
        extractedDict := Put(extractedDict, Strip(key), Strip(value));
      } else {
        assert Entries(lines[..i + 1]) == Entries(lines[..i]);
      }
    }
    assert lines[..|lines|] == lines;
  }

  /**
   * A key is stored exactly when some line holds a colon and parses to that
   * key; every stored key is trimmed and free of colons, and its value is
   * trimmed and is the value of such a line.
   */
  lemma ParsedEntry(text: string, k: string)
    ensures var lines := Split(text, '\n');
            k in Parsed(text).vals
            <==> exists i :: 0 <= i < |lines| && ':' in lines[i] && ParseLine(lines[i]).0 == k
    ensures k in Parsed(text).vals ==>
              && ':' !in k && IsTrimmed(k) && IsTrimmed(Parsed(text).vals[k])
              && exists i :: 0 <= i < |Split(text, '\n')| && ':' in Split(text, '\n')[i]
                             && ParseLine(Split(text, '\n')[i]) == (k, Parsed(text).vals[k])
  {
    var lines := Split(text, '\n');
    var es := Entries(lines);
    var d := Parsed(text);
    PutAllDomain(es, k);
    if k in d.vals {
      PutAllFrom(es, k);
      EntriesFrom(lines, (k, d.vals[k]));
    }
    if exists i :: 0 <= i < |lines| && ':' in lines[i] && ParseLine(lines[i]).0 == k {
      var i :| 0 <= i < |lines| && ':' in lines[i] && ParseLine(lines[i]).0 == k;
      EntriesOf(lines, i);
      var j :| 0 <= j < |es| && es[j] == ParseLine(lines[i]);
      assert KeysOf(es)[j] == k;
    }
  }

  /** No more entries than lines holding a colon. */
  lemma ParsedSize(text: string)
    ensures |Parsed(text).keys| <= |Filter(Split(text, '\n'), HasColon)|
  {
    PutAllSize(Entries(Split(text, '\n')));
    EntriesCount(Split(text, '\n'));
  }

  /** The last line that gives a key decides its value. */
  lemma {:induction false} LinesLastWins(lines: seq<string>, i: nat)
    requires i < |lines| && ':' in lines[i]
    requires forall j :: i < j < |lines| && ':' in lines[j] ==> ParseLine(lines[j]).0 != ParseLine(lines[i]).0
    ensures var (k, v) := ParseLine(lines[i]);
            k in PutAll(Entries(lines)).vals && PutAll(Entries(lines)).vals[k] == v
  {
    var pre := lines[..|lines| - 1];
    var line := lines[|lines| - 1];
    var (k, v) := ParseLine(lines[i]);
    if i < |pre| {
      assert pre[i] == lines[i];
      forall j | i < j < |pre| && ':' in pre[j] ensures ParseLine(pre[j]).0 != k {
        assert pre[j] == lines[j];
      }
      LinesLastWins(pre, i);
      if ':' in line {
        PutAllAppend(Entries(pre), ParseLine(line));
      } else {
        assert Entries(lines) == Entries(pre);
      }
    } else {
      PutAllAppend(Entries(pre), ParseLine(line));
    }
  }

  /** Keys keep the position of the first line that gave them. */
  lemma ParsedOrder(text: string, a: nat, b: nat)
    requires a < b < |Parsed(text).keys|
    ensures var ks := KeysOf(Entries(Split(text, '\n')));
            && Parsed(text).keys[a] in ks && Parsed(text).keys[b] in ks
            && IndexOf(ks, Parsed(text).keys[a]) < IndexOf(ks, Parsed(text).keys[b])
  {
    PutAllFirstOrder(Entries(Split(text, '\n')), a, b);
  }

  /** The line `k:v` for each entry. */
  function Render(es: seq<Entry>): (lines: seq<string>)
    ensures |lines| == |es| && forall i :: 0 <= i < |es| ==> lines[i] == es[i].0 + [':'] + es[i].1
  {
    seq(|es|, i requires 0 <= i < |es| => es[i].0 + [':'] + es[i].1)
  }

  /** Entries that can be written one per line without changing when read back. */
  ghost predicate Writable(es: seq<Entry>) {
    forall i :: 0 <= i < |es| ==>
      && ':' !in es[i].0 && '\n' !in es[i].0 && '\n' !in es[i].1
      && IsTrimmed(es[i].0) && IsTrimmed(es[i].1)
  }

  lemma {:induction false} EntriesRender(es: seq<Entry>)
    requires Writable(es)
    ensures Entries(Render(es)) == es
  {
    if |es| > 0 {
      var pre := es[..|es| - 1];
      var e := es[|es| - 1];
      var lines := Render(es);
      assert lines[..|lines| - 1] == Render(pre);
      EntriesRender(pre);
      ParseLineOf(e.0, e.1);
      SplitLast(es);
    }
  }

  /**
   * Round trip: the text that writes the entries as `key:value` lines parses
   * to the dictionary built by assigning those entries in order.
   */
  lemma RenderParse(es: seq<Entry>)
    requires Writable(es)
    ensures Parsed(Join(Render(es), '\n')) == PutAll(es)
  {
    var lines := Render(es);
    if |es| == 0 {
      assert Split("", '\n') == [""];
      assert ':' !in "";
    } else {
      forall i | 0 <= i < |lines| ensures '\n' !in lines[i] {
        assert lines[i] == es[i].0 + [':'] + es[i].1;
      }
      SplitJoin(lines, '\n');
      EntriesRender(es);
    }
  }
}
