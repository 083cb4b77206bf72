/**
 * The feature-id-map file reader of the model cache
 * (LgbCache.loadFeatureIdMapFromPath). Each line is trimmed and split on tab;
 * a line with exactly three fields maps field 1 (the feature name) to field 0
 * parsed as an int (the feature id), later lines overwriting earlier ones. A
 * three-field line whose field 0 is not an int throws, and the handler hands
 * back the map built so far: that line and every line after it are ignored.
 */
module FeatureIdMap {
  import opened Wrappers
  import opened JavaText

  /** What one line does to the map being built. */
  datatype LineOutcome = Skip | Put(name: string, id: int) | Abort

  /** The fields of a line as the loader sees them. */
  function LineFields(line: string): seq<string> {
    JavaSplit(Trim(line), '\t')
  }

  function ClassifyLine(line: string): (r: LineOutcome)
    ensures r.Put? ==> MinInt <= r.id <= MaxInt
  {
    var fields := LineFields(line);
    if |fields| != 3 then Skip
    else
      match ParseInt(fields[0])
      case None => Abort
      case Some(id) => Put(fields[1], id)
  }

  /** The outcome of every line, in file order. */
  function Classify(lines: seq<string>): (r: seq<LineOutcome>)
    ensures |r| == |lines|
  {
    if lines == [] then [] else [ClassifyLine(lines[0])] + Classify(lines[1..])
  }

  predicate PutsName(outcome: LineOutcome, name: string) {
    outcome.Put? && outcome.name == name
  }

  /** The map after one line that does not abort the loader. */
  function Apply(m: map<string, int>, outcome: LineOutcome): map<string, int> {
    if outcome.Put? then m[outcome.name := outcome.id] else m
  }

  /** The map that lines with these outcomes produce when read into m. */
  function Fold(m: map<string, int>, outcomes: seq<LineOutcome>): (r: map<string, int>)
    ensures m.Keys <= r.Keys
    decreases |outcomes|
  {
    if outcomes == [] then m
    else if outcomes[0].Abort? then m
    else Fold(Apply(m, outcomes[0]), outcomes[1..])
  }

  /** The map the loader returns for a file with these lines. */
  function FeatureIdMap(lines: seq<string>): (r: map<string, int>)
    ensures |r| <= |lines|
  {
    FoldSize(map[], Classify(lines));
    Fold(map[], Classify(lines))
  }

  /** How many lines are read before the first one that aborts the loader. */
  function Consumed(outcomes: seq<LineOutcome>): (n: nat)
    ensures n <= |outcomes|
    ensures forall j :: 0 <= j < n ==> !outcomes[j].Abort?
    ensures n < |outcomes| ==> outcomes[n].Abort?
  {
    if outcomes == [] then 0
    else if outcomes[0].Abort? then 0
    else 1 + Consumed(outcomes[1..])
  }

  /**
   * The loader. A file that cannot be opened (None) gives the empty map, since
   * the exception is caught; otherwise the lines are read in order.
   */
  method LoadFeatureIdMapFromPath(file: Option<seq<string>>) returns (featureIdMap: map<string, int>)
    ensures file.None? ==> featureIdMap == map[]
    ensures file.Some? ==> featureIdMap == FeatureIdMap(file.value)
  {
    featureIdMap := map[];
    if file.None? {
      return;
    }
    var lines := file.value;
    var i := 0;
    while i < |lines|
      invariant 0 <= i <= |lines|
      invariant Fold(featureIdMap, Classify(lines[i..])) == FeatureIdMap(lines)
    {
      assert lines[i..][0] == lines[i] && lines[i..][1..] == lines[i + 1..];
      var splits := JavaSplit(Trim(lines[i]), '\t');
      if |splits| == 3 {
        var featureName := splits[1];
        var featureId := ParseInt(splits[0]);
        if featureId.None? {
          // NumberFormatException: the handler returns the map built so far
          return;
        }
        featureIdMap := featureIdMap[featureName := featureId.value];
      }
      i := i + 1;
    }
  }

  // ---------------------------------------------------------------- lemmas

  lemma {:induction false} ClassifyAt(lines: seq<string>, j: nat)
    requires j < |lines|
    ensures Classify(lines)[j] == ClassifyLine(lines[j])
  {
    if j > 0 {
      ClassifyAt(lines[1..], j - 1);
      assert lines[1..][j - 1] == lines[j];
      IndexCons(ClassifyLine(lines[0]), Classify(lines[1..]), j);
    }
  }

  lemma {:induction false} ClassifyAppend(a: seq<string>, b: seq<string>)
    ensures Classify(a + b) == Classify(a) + Classify(b)
  {
    if a == [] {
      assert a + b == b;
    } else {
      assert (a + b)[0] == a[0] && (a + b)[1..] == a[1..] + b;
      ClassifyAppend(a[1..], b);
    }
  }

  lemma ClassifySingle(line: string)
    ensures Classify([line]) == [ClassifyLine(line)]
  {
    assert [line][0] == line && [line][1..] == [];
  }

  lemma ClassifySplice(pre: seq<string>, line: string, post: seq<string>)
    ensures Classify(pre + [line] + post) == Classify(pre) + [ClassifyLine(line)] + Classify(post)
  {
    var a, o, b := Classify(pre), ClassifyLine(line), Classify(post);
    var tail := [line] + post;
    Associative(pre, [line], post);
    ClassifyAppend(pre, tail);
    ClassifyAppend([line], post);
    ClassifySingle(line);
    Associative(a, [o], b);
  }

  lemma IndexCons<T>(x: T, xs: seq<T>, j: nat)
    requires 0 < j <= |xs|
    ensures ([x] + xs)[j] == xs[j - 1]
  {
  }

  lemma Associative<T>(a: seq<T>, b: seq<T>, c: seq<T>)
    ensures a + (b + c) == a + b + c
  {
  }

  lemma {:induction false} FoldSkip(m: map<string, int>, pre: seq<LineOutcome>, post: seq<LineOutcome>)
    ensures Fold(m, pre + [Skip] + post) == Fold(m, pre + post)
    decreases |pre|
  {
    var all := pre + [Skip] + post;
    if pre == [] {
      assert all == [Skip] + post && all[1..] == post && pre + post == post;
      assert Apply(m, Skip) == m;
    } else {
      assert all[0] == pre[0] && all[1..] == pre[1..] + [Skip] + post;
      assert (pre + post)[0] == pre[0] && (pre + post)[1..] == pre[1..] + post;
      if !pre[0].Abort? {
        FoldSkip(Apply(m, pre[0]), pre[1..], post);
      }
    }
  }

  lemma {:induction false} FoldAbort(m: map<string, int>, pre: seq<LineOutcome>, post: seq<LineOutcome>)
    ensures Fold(m, pre + [Abort] + post) == Fold(m, pre)
    decreases |pre|
  {
    var all := pre + [Abort] + post;
    if pre == [] {
      assert all[0] == Abort;
    } else {
      assert all[0] == pre[0] && all[1..] == pre[1..] + [Abort] + post;
      if !pre[0].Abort? {
        FoldAbort(Apply(m, pre[0]), pre[1..], post);
      }
    }
  }

  /** A line that does not split into exactly three fields leaves the map as it was. */
  lemma SkippedLineIgnored(pre: seq<string>, line: string, post: seq<string>)
    requires |LineFields(line)| != 3
    ensures FeatureIdMap(pre + [line] + post) == FeatureIdMap(pre + post)
  {
    ClassifySplice(pre, line, post);
    ClassifyAppend(pre, post);
    FoldSkip(map[], Classify(pre), Classify(post));
  }

  /**
   * A three-field line whose field 0 is not an int ends the read: the result is
   * exactly what the lines before it give.
   */
  lemma BadIdKeepsPrefix(pre: seq<string>, line: string, post: seq<string>)
    requires |LineFields(line)| == 3 && ParseInt(LineFields(line)[0]).None?
    ensures FeatureIdMap(pre + [line] + post) == FeatureIdMap(pre)
  {
    ClassifySplice(pre, line, post);
    FoldAbort(map[], Classify(pre), Classify(post));
  }

  lemma {:induction false} FoldHas(m: map<string, int>, os: seq<LineOutcome>, n: string)
    ensures n in Fold(m, os) <==>
            (n in m || exists j :: 0 <= j < Consumed(os) && PutsName(os[j], n))
    decreases |os|
  {
    if os != [] && !os[0].Abort? {
      var tail := os[1..];
      FoldHas(Apply(m, os[0]), tail, n);
      if exists j :: 0 <= j < Consumed(os) && PutsName(os[j], n) {
        var j :| 0 <= j < Consumed(os) && PutsName(os[j], n);
        if j > 0 {
          assert tail[j - 1] == os[j];
        }
      }
      if exists j :: 0 <= j < Consumed(tail) && PutsName(tail[j], n) {
        var j :| 0 <= j < Consumed(tail) && PutsName(tail[j], n);
        assert os[j + 1] == tail[j];
      }
    }
  }

  lemma {:induction false} FoldUntouched(m: map<string, int>, os: seq<LineOutcome>, n: string)
    requires n in m
    requires forall k :: 0 <= k < Consumed(os) ==> !PutsName(os[k], n)
    ensures n in Fold(m, os) && Fold(m, os)[n] == m[n]
    decreases |os|
  {
    if os != [] && !os[0].Abort? {
      var tail := os[1..];
      forall k | 0 <= k < Consumed(tail) ensures !PutsName(tail[k], n) {
        assert tail[k] == os[k + 1];
      }
      assert !PutsName(os[0], n);
      FoldUntouched(Apply(m, os[0]), tail, n);
    }
  }

  lemma {:induction false} FoldLastWins(m: map<string, int>, os: seq<LineOutcome>, j: nat, n: string, id: int)
    requires j < Consumed(os) && os[j] == Put(n, id)
    requires forall k :: j < k < Consumed(os) ==> !PutsName(os[k], n)
    ensures n in Fold(m, os) && Fold(m, os)[n] == id
    decreases |os|
  {
    var tail := os[1..];
    if j == 0 {
      forall k | 0 <= k < Consumed(tail) ensures !PutsName(tail[k], n) {
        assert tail[k] == os[k + 1];
      }
      FoldUntouched(m[n := id], tail, n);
    } else {
      forall k | j - 1 < k < Consumed(tail) ensures !PutsName(tail[k], n) {
        assert tail[k] == os[k + 1];
      }
      assert tail[j - 1] == os[j];
      FoldLastWins(Apply(m, os[0]), tail, j - 1, n, id);
    }
  }

  /**
   * A name is in the map exactly when some line read before the loader stopped
   * was an accepted line for that name.
   */
  lemma NameMapped(lines: seq<string>, n: string)
    ensures n in FeatureIdMap(lines) <==>
            exists j :: 0 <= j < Consumed(Classify(lines)) && PutsName(Classify(lines)[j], n)
  {
    var empty: map<string, int> := map[];
    assert FeatureIdMap(lines) == Fold(empty, Classify(lines));
    FoldHas(empty, Classify(lines), n);
  }

  /**
   * When several accepted lines share a name, the id of the last of them (before
   * the loader stopped) is the one in the map.
   */
  lemma LaterLineWins(lines: seq<string>, j: nat, n: string, id: int)
    requires j < Consumed(Classify(lines)) && Classify(lines)[j] == Put(n, id)
    requires forall k :: j < k < Consumed(Classify(lines)) ==> !PutsName(Classify(lines)[k], n)
    ensures n in FeatureIdMap(lines) && FeatureIdMap(lines)[n] == id
  {
    FoldLastWins(map[], Classify(lines), j, n, id);
  }

  /** A file without any accepted line gives the empty map, not an error. */
  lemma NoAcceptedLineGivesEmptyMap(lines: seq<string>)
    requires forall j :: 0 <= j < |lines| ==> !ClassifyLine(lines[j]).Put?
    ensures FeatureIdMap(lines) == map[]
  {
    forall j | 0 <= j < |lines| ensures !Classify(lines)[j].Put? {
      ClassifyAt(lines, j);
    }
    forall n | n in FeatureIdMap(lines) ensures false {
      FoldHas(map[], Classify(lines), n);
    }
  }

  lemma {:induction false} FoldSize(m: map<string, int>, os: seq<LineOutcome>)
    ensures |Fold(m, os)| <= |m| + Consumed(os)
    decreases |os|
  {
    if os != [] && !os[0].Abort? {
      if os[0].Put? {
        assert Apply(m, os[0]).Keys == m.Keys + {os[0].name};
      }
      FoldSize(Apply(m, os[0]), os[1..]);
    }
  }

  /** Every line adds at most one name, so the map is never larger than the file. */
  lemma SizeBound(lines: seq<string>)
    ensures |FeatureIdMap(lines)| <= Consumed(Classify(lines)) <= |lines|
  {
    FoldSize(map[], Classify(lines));
  }

  // ---------------------------------------------------------------- the format

  /** A well-formed line: id, name and a third field, separated by tabs. */
  function FormatLine(id: int, name: string, extra: string): string {
    Show(id) + "\t" + name + "\t" + extra
  }

  lemma ShowShape(i: int)
    ensures |Show(i)| > 0 && !IsTrimmable(Show(i)[0]) && '\t' !in Show(i)
  {
    var d := Decimal(if i < 0 then -i else i);
    assert IsDigit(d[0]);
    assert '\t' !in d by {
      forall k | 0 <= k < |d| ensures d[k] != '\t' {
        assert IsDigit(d[k]);
      }
    }
  }

  /**
   * A formatted line is accepted and maps its name to its id, whatever the
   * name (an empty one included), provided the name and the third field hold
   * no tab and the third field does not end in whitespace.
   */
  lemma FormattedLineAccepted(id: int, name: string, extra: string)
    requires MinInt <= id <= MaxInt
    requires '\t' !in name && '\t' !in extra
    requires |extra| > 0 && !IsTrimmable(extra[|extra| - 1])
    ensures LineFields(FormatLine(id, name, extra)) == [Show(id), name, extra]
    ensures ClassifyLine(FormatLine(id, name, extra)) == Put(name, id)
  {
    var line := FormatLine(id, name, extra);
    ShowShape(id);
    assert line[0] == Show(id)[0];
    assert line[|line| - 1] == extra[|extra| - 1];
    assert Trim(line) == line;
    assert line == Show(id) + ['\t'] + (name + ['\t'] + extra);
    FieldsAppend(Show(id), name + ['\t'] + extra, '\t');
    FieldsAppend(name, extra, '\t');
    FieldsNoSep(extra, '\t');
    SplitKeepsAllFields(line, '\t');
    ParseShow(id);
  }

  lemma SingleLineFold(line: string)
    ensures FeatureIdMap([line]) == if ClassifyLine(line).Abort? then map[] else Apply(map[], ClassifyLine(line))
  {
    var outcome := ClassifyLine(line);
    assert [line][0] == line && [line][1..] == [];
    assert Classify([line]) == [outcome] + Classify([]);
    assert Classify([line]) == [outcome];
    assert [outcome][1..] == [];
    if !outcome.Abort? {
      assert Fold(map[], [outcome]) == Fold(Apply(map[], outcome), []);
    }
  }

  /** A file of one line that is accepted maps exactly that line's name to its id. */
  lemma SingleAcceptedLine(line: string, name: string, id: int)
    requires ClassifyLine(line) == Put(name, id)
    ensures FeatureIdMap([line]) == map[name := id]
  {
    SingleLineFold(line);
  }

  /** A file of one skipped line gives the empty map. */
  lemma SingleSkippedLine(line: string)
    requires |LineFields(line)| != 3
    ensures FeatureIdMap([line]) == map[]
  {
    SingleLineFold(line);
  }

  lemma ShowFortyTwo()
    ensures Show(42) == "42"
  {
    assert Decimal(4) == "4";
  }

  /** The line "42\tuser_age\tstat" maps user_age to 42. */
  lemma UserAgeExample()
    ensures FeatureIdMap(["42\tuser_age\tstat"]) == map["user_age" := 42]
  {
    ShowFortyTwo();
    assert "42\tuser_age\tstat" == FormatLine(42, "user_age", "stat");
    FormattedLineAccepted(42, "user_age", "stat");
    SingleAcceptedLine("42\tuser_age\tstat", "user_age", 42);
  }

  /** "42\t\tx" has three fields, the middle one empty, and maps "" to 42. */
  lemma EmptyNameExample()
    ensures LineFields("42\t\tx") == ["42", "", "x"]
    ensures FeatureIdMap(["42\t\tx"]) == map["" := 42]
  {
    ShowFortyTwo();
    assert "42\t\tx" == FormatLine(42, "", "x");
    FormattedLineAccepted(42, "", "x");
    SingleAcceptedLine("42\t\tx", "", 42);
  }

  /** A line of an id and a name only has two fields. */
  lemma TwoFieldLineFields(id: int, name: string)
    requires '\t' !in name
    requires |name| > 0 && !IsTrimmable(name[|name| - 1])
    ensures LineFields(Show(id) + "\t" + name) == [Show(id), name]
  {
    var line := Show(id) + "\t" + name;
    ShowShape(id);
    assert line[0] == Show(id)[0];
    assert line[|line| - 1] == name[|name| - 1];
    assert Trim(line) == line;
    FieldsAppend(Show(id), name, '\t');
    FieldsNoSep(name, '\t');
    SplitKeepsAllFields(line, '\t');
  }

  /** The two-field line "42\tuser_age" is skipped. */
  lemma TwoFieldExample()
    ensures FeatureIdMap(["42\tuser_age"]) == map[]
  {
    ShowFortyTwo();
    TwoFieldLineFields(42, "user_age");
    assert "42\tuser_age" == Show(42) + "\t" + "user_age";
    SingleSkippedLine("42\tuser_age");
  }
}
