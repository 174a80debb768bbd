/**
 * The key/value reconstruction of `extract_and_format_text` (randapp/views.py):
 * the lines recognised in red are keys, the lines recognised in black are
 * values, and a cursor over the keys pairs them up by position.
 */
module Reconciler {
  import opened Seqs
  import opened Text
  import opened OrderedDict
  import LineFilter

  // ---------------------------------------------------------------------------
  // The keys (views.py 105-110)
  // ---------------------------------------------------------------------------

  /** `red_line.strip().rstrip(':')`: every trailing colon goes, and no leading whitespace is left. */
  function CleanKey(line: string): (key: string)
    ensures key == [] || (key[|key| - 1] != ':' && !IsSpace(key[0]))
  {
    RStrip(Strip(line), ":")
  }

  /** The cleaned key of every red line, empty ones included. */
  function CleanedKeys(redText: seq<string>): (ks: seq<string>)
    ensures |ks| == |redText|
    ensures forall i :: 0 <= i < |redText| ==> ks[i] == CleanKey(redText[i])
  {
    seq(|redText|, i requires 0 <= i < |redText| => CleanKey(redText[i]))
  }

  predicate NonEmpty(s: string) {
    s != []
  }

  /** The entries `(k, "")` for the keys `ks`, in order. */
  function Blank(ks: seq<string>): (es: seq<Entry>)
    ensures |es| == |ks| && forall i :: 0 <= i < |ks| ==> es[i] == (ks[i], "")
  {
    seq(|ks|, i requires 0 <= i < |ks| => (ks[i], ""))
  }

  lemma BlankKeys(ks: seq<string>)
    ensures KeysOf(Blank(ks)) == ks
  {
  }

  lemma BlankAppend(ks: seq<string>, tail: seq<string>)
    ensures Blank(ks + tail) == Blank(ks) + Blank(tail)
  {
  }

  /**
   * `result` after the first loop, when the cleaned keys of the red lines are
   * `ks`: the assignments `result[key] = ""` for the non-empty ones, in order.
   */
  function KeyDict(ks: seq<string>): Dict {
    PutAll(Blank(Filter(ks, NonEmpty)))
  }

  lemma CleanedKeysLast(redText: seq<string>, i: nat)
    requires i < |redText|
    ensures CleanedKeys(redText[..i + 1]) == CleanedKeys(redText[..i]) + [CleanKey(redText[i])]
  {
  }

  /** One more cleaned key: it is assigned `""` when it is not empty, and skipped otherwise. */
  lemma KeyDictLast(ks: seq<string>, key: string)
    ensures KeyDict(ks + [key]) == if key != [] then Put(KeyDict(ks), key, "") else KeyDict(ks)
  {
    var s := ks + [key];
    assert s[..|s| - 1] == ks;
    FilterLast(s, NonEmpty);
    var f := Filter(ks, NonEmpty);
    if key != [] {
      BlankAppend(f, [key]);
      PutAllAppend(Blank(f), (key, ""));
    } else {
      assert f + [] == f;
    }
  }

  /**
   * After the first loop, `result` holds exactly the non-empty cleaned keys,
   * each mapped to the empty string, and `keys` lists each of them once, in
   * the order of their first red line.
   */
  lemma KeyTable(ks: seq<string>, k: string)
    ensures Distinct(KeyDict(ks).keys)
    ensures k in KeyDict(ks).vals <==> k != [] && k in ks
    ensures k in KeyDict(ks).vals ==> KeyDict(ks).vals[k] == ""
  {
    var f := Filter(ks, NonEmpty);
    var es := Blank(f);
    PutAllDomain(es, k);
    BlankKeys(f);
    if k in KeyDict(ks).vals {
      PutAllFrom(es, k);
    }
  }

  /** `keys` has no repetitions and lists the keys in the order of their first red line. */
  lemma KeyTableOrder(ks: seq<string>, a: nat, b: nat)
    requires a < b < |KeyDict(ks).keys|
    ensures KeyDict(ks).keys[a] in ks && KeyDict(ks).keys[b] in ks
    ensures IndexOf(ks, KeyDict(ks).keys[a]) < IndexOf(ks, KeyDict(ks).keys[b])
  {
    var f := Filter(ks, NonEmpty);
    var keys := KeyDict(ks).keys;
    PutAllFirstOrder(Blank(f), a, b);
    BlankKeys(f);
    FilterOrder(ks, NonEmpty, keys[a], keys[b]);
  }

  /** Every key stored comes from a red line, is not empty, and neither ends in ':' nor starts with whitespace. */
  lemma RedKeys(redText: seq<string>, k: string)
    requires k in KeyDict(CleanedKeys(redText)).vals
    ensures k != [] && k[|k| - 1] != ':' && !IsSpace(k[0])
    ensures exists i :: 0 <= i < |redText| && CleanKey(redText[i]) == k
  {
    var c := CleanedKeys(redText);
    KeyTable(c, k);
    var i := IndexOf(c, k);
    assert CleanKey(redText[i]) == k;
  }

  /** The first loop of `extract_and_format_text` (views.py 106-110). */
  method InsertKeys(redText: seq<string>) returns (result: Dict)
    ensures result == KeyDict(CleanedKeys(redText))
  {
    result := Empty;
    assert CleanedKeys(redText[..0]) == [];
    for i := 0 to |redText|
      invariant result == KeyDict(CleanedKeys(redText[..i]))
    {
      var key := CleanKey(redText[i]);
      CleanedKeysLast(redText, i);
      KeyDictLast(CleanedKeys(redText[..i]), key);
      if key != [] {
        result := Put(result, key, "");
      }
    }
    assert redText[..|redText|] == redText;
  }

  // ---------------------------------------------------------------------------
  // The values (views.py 113-121)
  // ---------------------------------------------------------------------------

  /** The test `black_line not in result`: the line is not one of the keys. */
  function NotKey(keys: seq<string>): string -> bool {
    line => line !in keys
  }

  /** The black lines that are not keys, in order: the lines the cursor hands out. */
  function NonKeys(blackText: seq<string>, keys: seq<string>): (vs: seq<string>)
    ensures |vs| <= |blackText|
    ensures forall v :: v in vs <==> v in blackText && v !in keys
  {
    Filter(blackText, NotKey(keys))
  }

  /**
   * The dictionary after the second loop, stated without the loop: the j-th
   * key holds the j-th black line that is not a key, as long as both last;
   * the keys the cursor never reaches keep their value.
   */
  function Paired(d: Dict, blackText: seq<string>): (r: Dict)
    requires Valid(d)
    ensures Valid(r) && r.keys == d.keys
  {
    var values := NonKeys(blackText, d.keys);
    var n := Min(|d.keys|, |values|);
    Dict(d.keys, map k | k in d.vals :: if IndexOf(d.keys, k) < n then values[IndexOf(d.keys, k)] else d.vals[k])
  }

  lemma PairedAt(d: Dict, blackText: seq<string>, j: nat)
    requires Valid(d) && j < |d.keys|
    ensures var values := NonKeys(blackText, d.keys);
            Paired(d, blackText).vals[d.keys[j]]
            == if j < Min(|d.keys|, |values|) then values[j] else d.vals[d.keys[j]]
  {
    IndexOfDistinct(d.keys, j);
  }

  lemma NonKeysLast(blackText: seq<string>, keys: seq<string>, i: nat)
    requires i < |blackText|
    ensures NonKeys(blackText[..i + 1], keys)
         == NonKeys(blackText[..i], keys) + (if blackText[i] !in keys then [blackText[i]] else [])
  {
    assert blackText[..i + 1][..i] == blackText[..i];
    FilterLast(blackText[..i + 1], NotKey(keys));
  }

  /**
   * One more black line: when the cursor has not passed the last key and the
   * line is not a key, the key under the cursor takes the line; otherwise
   * nothing changes.
   */
  lemma PairedStep(d: Dict, blackText: seq<string>, i: nat)
    requires Valid(d) && i < |blackText|
    ensures var c := Min(|d.keys|, |NonKeys(blackText[..i], d.keys)|);
            Paired(d, blackText[..i + 1])
            == if c < |d.keys| && blackText[i] !in d.keys
               then Put(Paired(d, blackText[..i]), d.keys[c], blackText[i])
               else Paired(d, blackText[..i])
  {
    var c := Min(|d.keys|, |NonKeys(blackText[..i], d.keys)|);
    if c < |d.keys| && blackText[i] !in d.keys {
      PairedStepPut(d, blackText, i, c);
    } else {
      PairedStepSame(d, blackText, i, c);
    }
  }

  lemma PairedStepPut(d: Dict, blackText: seq<string>, i: nat, c: nat)
    requires Valid(d) && i < |blackText|
    requires c == Min(|d.keys|, |NonKeys(blackText[..i], d.keys)|)
    requires c < |d.keys| && blackText[i] !in d.keys
    ensures Paired(d, blackText[..i + 1]) == Put(Paired(d, blackText[..i]), d.keys[c], blackText[i])
  {
    var q := Paired(d, blackText[..i + 1]);
    var r := Put(Paired(d, blackText[..i]), d.keys[c], blackText[i]);
    forall k | k in d.vals ensures k in r.vals && q.vals[k] == r.vals[k] {
      var j := IndexOf(d.keys, k);
      PairedStepAt(d, blackText, i, j);
      if j < c {
        DistinctAt(d.keys, j, c);
      } else if c < j {
        DistinctAt(d.keys, c, j);
      }
    }
    SameMap(q.vals, r.vals);
  }

  lemma PairedStepSame(d: Dict, blackText: seq<string>, i: nat, c: nat)
    requires Valid(d) && i < |blackText|
    requires c == Min(|d.keys|, |NonKeys(blackText[..i], d.keys)|)
    requires !(c < |d.keys| && blackText[i] !in d.keys)
    ensures Paired(d, blackText[..i + 1]) == Paired(d, blackText[..i])
  {
    var q := Paired(d, blackText[..i + 1]);
    var p := Paired(d, blackText[..i]);
    forall k | k in d.vals ensures q.vals[k] == p.vals[k] {
      PairedStepAt(d, blackText, i, IndexOf(d.keys, k));
    }
    assert q.vals == p.vals;
  }

  lemma PairedStepAt(d: Dict, blackText: seq<string>, i: nat, j: nat)
    requires Valid(d) && i < |blackText| && j < |d.keys|
    ensures var c := Min(|d.keys|, |NonKeys(blackText[..i], d.keys)|);
            Paired(d, blackText[..i + 1]).vals[d.keys[j]]
            == if j == c && blackText[i] !in d.keys then blackText[i]
               else Paired(d, blackText[..i]).vals[d.keys[j]]
  {
    NonKeysLast(blackText, d.keys, i);
    PairedAt(d, blackText[..i], j);
    PairedAt(d, blackText[..i + 1], j);
  }

  /** The cursor moves on exactly when a black line that is not a key finds a key left to fill. */
  lemma CursorStep(keys: seq<string>, blackText: seq<string>, i: nat)
    requires i < |blackText|
    ensures var c := Min(|keys|, |NonKeys(blackText[..i], keys)|);
            Min(|keys|, |NonKeys(blackText[..i + 1], keys)|)
            == if c < |keys| && blackText[i] !in keys then c + 1 else c
  {
    NonKeysLast(blackText, keys, i);
  }

  /** One turn of the second loop, in the terms of the loop's own test. */
  lemma PairValuesStep(d: Dict, blackText: seq<string>, i: nat, paired: Dict, c: nat)
    requires Valid(d) && i < |blackText|
    requires paired == Paired(d, blackText[..i])
    requires c == Min(|d.keys|, |NonKeys(blackText[..i], d.keys)|)
    ensures c < |d.keys| && blackText[i] !in paired.vals ==>
              && Paired(d, blackText[..i + 1]) == Put(paired, d.keys[c], blackText[i])
              && c + 1 == Min(|d.keys|, |NonKeys(blackText[..i + 1], d.keys)|)
    ensures !(c < |d.keys| && blackText[i] !in paired.vals) ==>
              && Paired(d, blackText[..i + 1]) == paired
              && c == Min(|d.keys|, |NonKeys(blackText[..i + 1], d.keys)|)
  {
    PairedStep(d, blackText, i);
    CursorStep(d.keys, blackText, i);
    assert blackText[i] in paired.vals <==> blackText[i] in d.keys;
  }

  /**
   * The second loop of `extract_and_format_text` (views.py 113-121). The key
   * set never changes, the cursor stays within `0..len(keys)`, and it advances
   * once for each black line that is not a key until the keys run out.
   */
  method PairValues(result: Dict, blackText: seq<string>) returns (paired: Dict, currentKeyIdx: nat)
    requires Valid(result)
    ensures paired == Paired(result, blackText)
    ensures currentKeyIdx == Min(|result.keys|, |NonKeys(blackText, result.keys)|)
  {
    var keys := result.keys;
    paired := result;
    currentKeyIdx := 0;
    assert blackText[..0] == [];
    assert Paired(result, []).vals == result.vals;
    for i := 0 to |blackText|
      invariant paired == Paired(result, blackText[..i])
      invariant currentKeyIdx == Min(|keys|, |NonKeys(blackText[..i], keys)|)
    {
      var blackLine := blackText[i];
      PairValuesStep(result, blackText, i, paired, currentKeyIdx);
      if currentKeyIdx < |keys| {
        if blackLine !in paired.vals {
          paired := Put(paired, keys[currentKeyIdx], blackLine);
          currentKeyIdx := currentKeyIdx + 1;
        }
      }
    }
    assert blackText[..|blackText|] == blackText;
  }

  // ---------------------------------------------------------------------------
  // The result (views.py 124)
  // ---------------------------------------------------------------------------

  function HasValue(vals: map<string, string>): string -> bool {
    k => k in vals && vals[k] != ""
  }

  /** `{k: v for k, v in result.items() if v}`: the entries with a non-empty value. */
  function DropEmpty(d: Dict): (r: Dict)
    requires Valid(d)
    ensures Valid(r)
    ensures forall k :: k in r.vals <==> k in d.vals && d.vals[k] != ""
    ensures forall k :: k in r.vals ==> r.vals[k] == d.vals[k]
  {
    FilterDistinct(d.keys, HasValue(d.vals));
    Dict(Filter(d.keys, HasValue(d.vals)), map k | k in d.vals && d.vals[k] != "" :: d.vals[k])
  }

  /** When exactly the first `n` keys hold a non-empty value, those `n` keys are what remains. */
  lemma DropEmptyPrefix(d: Dict, n: nat)
    requires Valid(d) && n <= |d.keys|
    requires forall j :: 0 <= j < |d.keys| ==> d.keys[j] in d.vals && (d.vals[d.keys[j]] != "" <==> j < n)
    ensures DropEmpty(d).keys == d.keys[..n]
  {
    forall j | 0 <= j < |d.keys| ensures HasValue(d.vals)(d.keys[j]) <==> j < n {
    }
    FilterPrefix(d.keys, HasValue(d.vals), n);
  }

  /** The entries that remain keep their relative order. */
  lemma DropEmptyOrder(d: Dict, a: nat, b: nat)
    requires Valid(d) && a < b < |DropEmpty(d).keys|
    ensures IndexOf(d.keys, DropEmpty(d).keys[a]) < IndexOf(d.keys, DropEmpty(d).keys[b])
  {
    var r := DropEmpty(d);
    IndexOfDistinct(r.keys, a);
    IndexOfDistinct(r.keys, b);
    FilterOrder(d.keys, HasValue(d.vals), r.keys[a], r.keys[b]);
  }

  // ---------------------------------------------------------------------------
  // The whole reconciler (views.py 103-126)
  // ---------------------------------------------------------------------------

  /** The final dictionary when the cleaned keys are `ks` and the value lines `blackText`. */
  function Reconcile(ks: seq<string>, blackText: seq<string>): Dict {
    DropEmpty(Paired(KeyDict(ks), blackText))
  }

  /**
   * `r` pairs the keys with the values by position: it holds the first
   * `min(len(keys), len(values))` keys, in order, and the j-th of them maps to
   * the j-th value.
   */
  predicate PairsUp(r: Dict, keys: seq<string>, values: seq<string>) {
    var n := Min(|keys|, |values|);
    && r.keys == keys[..n]
    && forall j :: 0 <= j < n ==> keys[j] in r.vals && r.vals[keys[j]] == values[j]
  }

  /**
   * With value lines that are never empty (as the line filter guarantees), the
   * result holds the first `min(len(keys), n)` keys, `n` the number of black
   * lines that are not keys, and the j-th of them maps to the j-th such line.
   */
  lemma ReconcileShape(ks: seq<string>, blackText: seq<string>)
    requires forall j :: 0 <= j < |blackText| ==> blackText[j] != []
    ensures var keys := KeyDict(ks).keys;
            PairsUp(Reconcile(ks, blackText), keys, NonKeys(blackText, keys))
  {
    var d := KeyDict(ks);
    forall k | k in d.vals ensures d.vals[k] == "" {
      KeyTable(ks, k);
    }
    PairedShape(d, blackText);
  }

  /** The same, for any dictionary whose values are all still empty. */
  lemma PairedShape(d: Dict, blackText: seq<string>)
    requires Valid(d) && forall k :: k in d.vals ==> d.vals[k] == ""
    requires forall j :: 0 <= j < |blackText| ==> blackText[j] != []
    ensures PairsUp(DropEmpty(Paired(d, blackText)), d.keys, NonKeys(blackText, d.keys))
  {
    var keys := d.keys;
    var values := NonKeys(blackText, keys);
    var n := Min(|keys|, |values|);
    var p := Paired(d, blackText);
    FilledPrefix(d, blackText);
    forall j | 0 <= j < n ensures keys[j] in DropEmpty(p).vals && DropEmpty(p).vals[keys[j]] == values[j] {
      PairedAt(d, blackText, j);
    }
  }

  /** The keys that keep an entry are the ones the cursor reached, a prefix of the key order. */
  lemma FilledPrefix(d: Dict, blackText: seq<string>)
    requires Valid(d) && forall k :: k in d.vals ==> d.vals[k] == ""
    requires forall j :: 0 <= j < |blackText| ==> blackText[j] != []
    ensures DropEmpty(Paired(d, blackText)).keys == d.keys[..Min(|d.keys|, |NonKeys(blackText, d.keys)|)]
  {
    var n := Min(|d.keys|, |NonKeys(blackText, d.keys)|);
    var p := Paired(d, blackText);
    forall j | 0 <= j < |p.keys| ensures p.keys[j] in p.vals && (p.vals[p.keys[j]] != "" <==> j < n) {
      FilledExactly(d, blackText, j);
    }
    DropEmptyPrefix(p, n);
  }

  /** With non-empty value lines, a key ends up with a non-empty value exactly when the cursor reached it. */
  lemma FilledExactly(d: Dict, blackText: seq<string>, j: nat)
    requires Valid(d) && forall k :: k in d.vals ==> d.vals[k] == ""
    requires forall j :: 0 <= j < |blackText| ==> blackText[j] != []
    requires j < |d.keys|
    ensures var values := NonKeys(blackText, d.keys);
            && d.keys[j] in Paired(d, blackText).vals
            && (Paired(d, blackText).vals[d.keys[j]] != "" <==> j < Min(|d.keys|, |values|))
  {
    var values := NonKeys(blackText, d.keys);
    PairedAt(d, blackText, j);
    if j < Min(|d.keys|, |values|) {
      assert values[j] in values;
    }
  }

  /** The text post-processing of `extract_and_format_text` (views.py 103-126) on the two filtered line lists. */
  method ReconcilePairs(redText: seq<string>, blackText: seq<string>) returns (finalResult: Dict)
    ensures finalResult == Reconcile(CleanedKeys(redText), blackText)
    ensures Valid(finalResult)
    ensures forall k :: k in finalResult.vals ==> finalResult.vals[k] != ""
  {
    var result := InsertKeys(redText);
    var paired, _ := PairValues(result, blackText);
    finalResult := DropEmpty(paired);
  }

  /**
   * `extract_and_format_text` after the image work: the OCR text of the red
   * layer supplies the keys and that of the black layer the values.
   */
  method ExtractAndFormatText(redOcr: string, blackOcr: string) returns (finalResult: Dict)
    ensures Valid(finalResult)
    ensures forall k :: k in finalResult.vals ==> finalResult.vals[k] != ""
    ensures var keys := KeyDict(CleanedKeys(LineFilter.Filtered(Split(redOcr, '\n')))).keys;
            PairsUp(finalResult, keys, NonKeys(LineFilter.Filtered(Split(blackOcr, '\n')), keys))
  {
    var redText := LineFilter.FilterLines(redOcr);
    var blackText := LineFilter.FilterLines(blackOcr);
    finalResult := ReconcilePairs(redText, blackText);
    ReconcileShape(CleanedKeys(redText), blackText);
  }

  // ---------------------------------------------------------------------------
  // Examples
  // ---------------------------------------------------------------------------

  /** A trimmed key written with one trailing colon cleans back to the key. */
  lemma CleanKeyColon(k: string)
    requires k != [] && IsTrimmed(k) && k[|k| - 1] != ':'
    ensures CleanKey(k + ":") == k
  {
    var line := k + ":";
    assert line[0] == k[0] && line[|line| - 1] == ':';
    StripTrimmed(line);
    assert line[..|line| - 1] == k;
  }

  /**
   * Every trailing colon goes, not only one, and whitespace left in front of
   * the colons stays: `"Name::"` cleans to `"Name"` and `"Name :"` to `"Name "`.
   */
  lemma CleanKeyColons()
    ensures CleanKey("Name::") == "Name"
    ensures CleanKey("Name :") == "Name "
  {
    StripTrimmed("Name::");
    StripTrimmed("Name :");
    assert "Name::"[..5] == "Name:" && "Name:"[..4] == "Name";
    assert "Name :"[..5] == "Name ";
  }

  /** Red lines that are keys written with one trailing colon clean to those keys. */
  lemma ColonKeys(red: seq<string>, ks: seq<string>)
    requires |red| == |ks|
    requires forall i :: 0 <= i < |ks| ==> ks[i] != [] && IsTrimmed(ks[i]) && ks[i][|ks[i]| - 1] != ':'
    requires forall i :: 0 <= i < |ks| ==> red[i] == ks[i] + ":"
    ensures CleanedKeys(red) == ks
  {
    forall i | 0 <= i < |ks| ensures CleanKey(red[i]) == ks[i] {
      CleanKeyColon(ks[i]);
    }
  }

  /** Distinct non-empty keys are stored in their own order. */
  lemma DistinctKeyOrder(ks: seq<string>)
    requires forall i :: 0 <= i < |ks| ==> ks[i] != []
    requires Distinct(ks)
    ensures KeyDict(ks).keys == ks
  {
    FilterPrefix(ks, NonEmpty, |ks|);
    assert ks[..|ks|] == ks;
    BlankKeys(ks);
    PutAllDistinct(Blank(ks));
  }

  /** When no black line is a key, every black line is handed out. */
  lemma NonKeysAll(blackText: seq<string>, keys: seq<string>)
    requires forall i :: 0 <= i < |blackText| ==> blackText[i] !in keys
    ensures NonKeys(blackText, keys) == blackText
  {
    FilterPrefix(blackText, NotKey(keys), |blackText|);
    assert blackText[..|blackText|] == blackText;
  }

  /**
   * Distinct non-empty keys with black lines that are never keys: the j-th
   * key takes the j-th black line, for as many keys and lines as there both are.
   */
  lemma Zip(ks: seq<string>, blackText: seq<string>)
    requires forall i :: 0 <= i < |ks| ==> ks[i] != []
    requires Distinct(ks)
    requires forall j :: 0 <= j < |blackText| ==> blackText[j] != [] && blackText[j] !in ks
    ensures PairsUp(Reconcile(ks, blackText), ks, blackText)
  {
    DistinctKeyOrder(ks);
    NonKeysAll(blackText, ks);
    ReconcileShape(ks, blackText);
  }

  /** With at least as many value lines as keys, every key is filled, in order. */
  lemma ZipAll(ks: seq<string>, blackText: seq<string>)
    requires forall i :: 0 <= i < |ks| ==> ks[i] != []
    requires Distinct(ks)
    requires |blackText| >= |ks|
    requires forall j :: 0 <= j < |blackText| ==> blackText[j] != [] && blackText[j] !in ks
    ensures Reconcile(ks, blackText).keys == ks
    ensures forall j :: 0 <= j < |ks| ==> Reconcile(ks, blackText).vals[ks[j]] == blackText[j]
  {
    Zip(ks, blackText);
    assert ks[..|ks|] == ks;
  }

  /** Two keys with two value lines that are not keys: each key takes its value. */
  lemma TwoPairs(k1: string, k2: string, v1: string, v2: string)
    requires k1 != [] && k2 != [] && k1 != k2
    requires v1 != [] && v2 != [] && v1 != k1 && v1 != k2 && v2 != k1 && v2 != k2
    ensures Reconcile([k1, k2], [v1, v2]) == Dict([k1, k2], map[k1 := v1, k2 := v2])
  {
    var ks, black := [k1, k2], [v1, v2];
    ZipAll(ks, black);
    var r := Reconcile(ks, black);
    assert r.vals[ks[0]] == black[0] && r.vals[ks[1]] == black[1];
    DictOfTwo(r, k1, k2, v1, v2);
  }

  /** One key with two value lines: the second is dropped once the keys run out. */
  lemma OneKeyLeftOver(k: string, v1: string, v2: string)
    requires k != [] && v1 != [] && v2 != [] && v1 != k && v2 != k
    ensures Reconcile([k], [v1, v2]) == Dict([k], map[k := v1])
  {
    var ks, black := [k], [v1, v2];
    ZipAll(ks, black);
    var r := Reconcile(ks, black);
    assert r.vals[ks[0]] == black[0];
    DictOfOne(r, k, v1);
  }

  /** One key with the value lines `k` and `v`: the line equal to the key is skipped. */
  lemma OneKeySkipped(k: string, v: string)
    requires k != [] && v != [] && v != k
    ensures Reconcile([k], [k, v]) == Dict([k], map[k := v])
  {
    var ks, black := [k], [k, v];
    DistinctKeyOrder(ks);
    SkipFirst(black, ks);
    ReconcileShape(ks, black);
    var r := Reconcile(ks, black);
    assert ks[..1] == ks;
    assert r.vals[ks[0]] == NonKeys(black, ks)[0];
    DictOfOne(r, k, v);
  }

  lemma SkipFirst(black: seq<string>, keys: seq<string>)
    requires |black| == 2 && black[0] in keys && black[1] !in keys
    ensures NonKeys(black, keys) == [black[1]]
  {
    NonKeysLast(black, keys, 1);
    NonKeysLast(black, keys, 0);
    assert black[..2] == black && black[..0] == [];
  }

  /** Keys `Name:` and `Age:` with the values `John Smith` and `34` give `{"Name": "John Smith", "Age": "34"}`. */
  lemma ExampleNameAge(red: seq<string>, black: seq<string>)
    requires red == ["Name:", "Age:"] && black == ["John Smith", "34"]
    ensures Reconcile(CleanedKeys(red), black) == Dict(["Name", "Age"], map["Name" := "John Smith", "Age" := "34"])
  {
    assert "Name" + ":" == red[0] && "Age" + ":" == red[1];
    ColonKeys(red, ["Name", "Age"]);
    TwoPairs("Name", "Age", "John Smith", "34");
  }

  /** A single key `Name:` with the values `John` and `Smith` keeps only `{"Name": "John"}`. */
  lemma ExampleLeftOver(red: seq<string>, black: seq<string>)
    requires red == ["Name:"] && black == ["John", "Smith"]
    ensures Reconcile(CleanedKeys(red), black) == Dict(["Name"], map["Name" := "John"])
  {
    assert "Name" + ":" == red[0];
    ColonKeys(red, ["Name"]);
    OneKeyLeftOver("Name", "John", "Smith");
  }

  /** The key `Name:` with the value lines `Name` and `John` gives `{"Name": "John"}`. */
  lemma ExampleSkipsKey(red: seq<string>, black: seq<string>)
    requires red == ["Name:"] && black == ["Name", "John"]
    ensures Reconcile(CleanedKeys(red), black) == Dict(["Name"], map["Name" := "John"])
  {
    assert "Name" + ":" == red[0];
    ColonKeys(red, ["Name"]);
    OneKeySkipped("Name", "John");
  }

  /** Without keys the result is empty, whatever the values. */
  lemma NoKeysNoResult(ks: seq<string>, black: seq<string>)
    requires forall i :: 0 <= i < |ks| ==> ks[i] == []
    ensures Reconcile(ks, black) == Empty
  {
    FilterPrefix(ks, NonEmpty, 0);
    assert Blank([]) == [];
    var p := Paired(Empty, black);
    assert p.vals == map[];
  }
}
