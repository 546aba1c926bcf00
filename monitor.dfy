/** The per-feature loop of `main` (src/monitor/psi.py, lines 23-27): which columns
    get a PSI entry, and the report built from them in the order they are inserted. */
module Monitor {
  import opened Sequences
  import opened PopulationStability

  /** `TARGET`: the label column, never scored. */
  const Target: string := "default.payment.next.month"

  /** The bin count `main` passes to `psi`. */
  const Bins: nat := 10

  /** One column of a loaded table. `numeric` is what `is_numeric_dtype` reports for it;
      `values` are its entries, read only when the column is scored. */
  datatype Column = Column(name: string, numeric: bool, values: seq<real>)

  /** `df.columns`: the column names in table order. */
  function Names(frame: seq<Column>): (names: seq<string>)
    ensures |names| == |frame|
    ensures forall i :: 0 <= i < |frame| ==> names[i] == frame[i].name
  {
    seq(|frame|, i requires 0 <= i < |frame| => frame[i].name)
  }

  predicate Distinct(names: seq<string>) {
    forall i, j :: 0 <= i < j < |names| ==> names[i] != names[j]
  }

  /** `frame[c]`: the (first) column named `c`. */
  function Lookup(frame: seq<Column>, c: string): (col: Column)
    requires c in Names(frame)
    ensures col in frame && col.name == c
  {
    if frame[0].name == c then frame[0]
    else
      assert Names(frame[1..]) == Names(frame)[1..];
      Lookup(frame[1..], c)
  }

  /** `r` is `s` with some elements left out, the rest kept in their order. */
  predicate IsSubsequence(r: seq<string>, s: seq<string>)
    decreases |s|
  {
    r == [] ||
    (s != [] &&
     ((r[|r| - 1] == s[|s| - 1] && IsSubsequence(r[..|r| - 1], s[..|s| - 1])) ||
      IsSubsequence(r, s[..|s| - 1])))
  }

  /** A subsequence draws its elements from the sequence, and keeping a subsequence
      of a duplicate-free sequence keeps it duplicate-free. */
  lemma {:induction false} SubsequenceDistinct(r: seq<string>, s: seq<string>)
    requires IsSubsequence(r, s)
    ensures forall c :: c in r ==> c in s
    ensures Distinct(s) ==> Distinct(r)
    decreases |s|
  {
    if r != [] {
      var r0, s0 := r[..|r| - 1], s[..|s| - 1];
      assert forall c :: c in s0 ==> c in s;
      if r[|r| - 1] == s[|s| - 1] && IsSubsequence(r0, s0) {
        SubsequenceDistinct(r0, s0);
        assert forall k :: 0 <= k < |r0| ==> r[k] == r0[k] && r0[k] in s0;
        assert forall c :: c in r ==> c in r0 || c == r[|r| - 1];
        if Distinct(s) {
          assert s[|s| - 1] !in s0;
        }
      } else {
        SubsequenceDistinct(r, s0);
      }
    }
  }

  /** Line 23: the train columns that also appear in the new table and are not `Target`. */
  function Common(train: seq<string>, current: seq<string>): (common: seq<string>)
    ensures forall c :: c in common <==> c in train && c in current && c != Target
    ensures IsSubsequence(common, train)
  {
    if train == [] then []
    else
      var c := train[|train| - 1];
      var init := Common(train[..|train| - 1], current);
      assert forall x :: x in train <==> x in train[..|train| - 1] || x == c;
      if c in current && c != Target then
        assert (init + [c])[..|init|] == init;
        init + [c]
      else init
  }

  /** Line 26: the columns among `cols` for which `numeric` holds, in order. */
  function NumericOnly(cols: seq<string>, numeric: string -> bool): (keys: seq<string>)
    ensures forall c :: c in keys <==> c in cols && numeric(c)
    ensures IsSubsequence(keys, cols)
  {
    if cols == [] then []
    else
      var c := cols[|cols| - 1];
      var init := NumericOnly(cols[..|cols| - 1], numeric);
      assert forall x :: x in cols <==> x in cols[..|cols| - 1] || x == c;
      if numeric(c) then
        assert (init + [c])[..|init|] == init;
        init + [c]
      else init
  }

  /** Whether the train column is numeric, as a test on column names (false for names train lacks). */
  function NumericIn(train: seq<Column>): (numeric: string -> bool) {
    c => c in Names(train) && Lookup(train, c).numeric
  }

  lemma {:induction false} SubsequenceTransitive(a: seq<string>, b: seq<string>, c: seq<string>)
    requires IsSubsequence(a, b) && IsSubsequence(b, c)
    ensures IsSubsequence(a, c)
    decreases |c|
  {
    if a != [] && c != [] {
      var a0, b0, c0 := a[..|a| - 1], b[..|b| - 1], c[..|c| - 1];
      if b[|b| - 1] == c[|c| - 1] && IsSubsequence(b0, c0) {
        if a[|a| - 1] == b[|b| - 1] && IsSubsequence(a0, b0) {
          SubsequenceTransitive(a0, b0, c0);
        } else {
          SubsequenceTransitive(a, b0, c0);
        }
      } else {
        SubsequenceTransitive(a, b, c0);
      }
    }
  }

  /** The keys `main` writes: train columns present in the new table, other than
      `Target`, numeric in train; in train column order, each once when the train
      column names are distinct. */
  function Selected(train: seq<Column>, current: seq<Column>): (keys: seq<string>)
    ensures forall c :: c in keys <==>
      c in Names(train) && c in Names(current) && c != Target && Lookup(train, c).numeric
    ensures IsSubsequence(keys, Names(train))
    ensures Distinct(Names(train)) ==> Distinct(keys)
  {
    var common := Common(Names(train), Names(current));
    var keys := NumericOnly(common, NumericIn(train));
    SubsequenceTransitive(keys, common, Names(train));
    SubsequenceDistinct(keys, Names(train));
    keys
  }

  /** Line 27: the index of a column's new values against its train values, with
      10 bins, as a function of the column name. `Report` consults it only for names
      present in both tables (`Common`); the value for any other name is never used,
      and the constant `Err(EmptyReference)` merely fills that case. */
  function ColumnPsi(train: seq<Column>, current: seq<Column>, ln: real -> real): (score: string -> Result<real>) {
    c =>
      if c in Names(train) && c in Names(current) then
        Psi(Lookup(train, c).values, Lookup(current, c).values, Bins, ln)
      else Err(EmptyReference)
  }

  /** The report the loop has built after visiting `cols`, in order: an entry
      `(c, score(c))` for every `c` with `numeric(c)`; the first failing score ends
      the run with its error. */
  function ReportOf(cols: seq<string>, numeric: string -> bool, score: string -> Result<real>)
    : (r: Result<seq<(string, real)>>)
  {
    if cols == [] then Ok([])
    else
      var c := cols[|cols| - 1];
      var before := ReportOf(cols[..|cols| - 1], numeric, score);
      if before.Err? || !numeric(c) then before
      else
        match score(c)
        case Err(e) => Err(e)
        case Ok(v) => Ok(before.value + [(c, v)])
  }

  /** The keys of a report, in insertion order. */
  function Keys(entries: seq<(string, real)>): (keys: seq<string>)
    ensures |keys| == |entries|
    ensures forall k :: 0 <= k < |entries| ==> keys[k] == entries[k].0
  {
    seq(|entries|, k requires 0 <= k < |entries| => entries[k].0)
  }

  /** The report of `main` over both tables. */
  function Report(train: seq<Column>, current: seq<Column>, ln: real -> real): (r: Result<seq<(string, real)>>)
  {
    ReportOf(Common(Names(train), Names(current)), NumericIn(train), ColumnPsi(train, current, ln))
  }

  /** Lines 23-27: the loop that fills `res`. */
  method PsiReport(train: seq<Column>, current: seq<Column>, ln: real -> real)
    returns (r: Result<seq<(string, real)>>)
    ensures r == Report(train, current, ln)
  {
    var common := Common(Names(train), Names(current));
    var numeric, score := NumericIn(train), ColumnPsi(train, current, ln);
    var res: seq<(string, real)> := [];
    for i := 0 to |common|
      invariant ReportOf(common[..i], numeric, score) == Ok(res)
    {
      var c := common[i];
      ReportOfStep(common, i, numeric, score);
      var col := Lookup(train, c);
      if col.numeric {
        var p := Psi(col.values, Lookup(current, c).values, Bins, ln);
        assert p == score(c);
        if p.Err? {
          ReportErrPersists(common, i + 1, numeric, score);
          return Err(p.error);
        }
        res := res + [(c, p.value)];
      }
    }
    assert common[..|common|] == common;
    return Ok(res);
  }

  /** One iteration of the loop: the report after `cols[..i + 1]` from the report after `cols[..i]`. */
  lemma ReportOfStep(cols: seq<string>, i: nat, numeric: string -> bool, score: string -> Result<real>)
    requires i < |cols|
    ensures var before := ReportOf(cols[..i], numeric, score);
      ReportOf(cols[..i + 1], numeric, score) ==
        if before.Err? || !numeric(cols[i]) then before
        else match score(cols[i])
          case Err(e) => Err(e)
          case Ok(v) => Ok(before.value + [(cols[i], v)])
  {
    assert cols[..i + 1][..i] == cols[..i];
  }

  /** Once a score has failed, the report of any longer run fails too. */
  lemma {:induction false} ReportErrPersists(cols: seq<string>, i: nat, numeric: string -> bool,
                                             score: string -> Result<real>)
    requires i <= |cols| && ReportOf(cols[..i], numeric, score).Err?
    ensures ReportOf(cols, numeric, score).Err?
    decreases |cols| - i
  {
    if i < |cols| {
      assert cols[..i + 1][..i] == cols[..i];
      ReportErrPersists(cols, i + 1, numeric, score);
    } else {
      assert cols[..i] == cols;
    }
  }

  /** The report succeeds exactly when every selected column scores. */
  lemma {:induction false} ReportOfOk(cols: seq<string>, numeric: string -> bool, score: string -> Result<real>)
    ensures ReportOf(cols, numeric, score).Ok? <==> forall c :: c in cols && numeric(c) ==> score(c).Ok?
  {
    if cols != [] {
      var init := cols[..|cols| - 1];
      assert cols == init + [cols[|cols| - 1]];
      ReportOfOk(init, numeric, score);
    }
  }

  /** A successful report holds one entry per selected column, in order, each
      carrying that column's score. */
  lemma {:induction false} ReportOfEntries(cols: seq<string>, numeric: string -> bool,
                                           score: string -> Result<real>)
    requires ReportOf(cols, numeric, score).Ok?
    ensures Keys(ReportOf(cols, numeric, score).value) == NumericOnly(cols, numeric)
    ensures forall k :: 0 <= k < |ReportOf(cols, numeric, score).value| ==>
      var entry := ReportOf(cols, numeric, score).value[k];
      score(entry.0) == Ok(entry.1)
  {
    if cols != [] {
      var init := cols[..|cols| - 1];
      var c := cols[|cols| - 1];
      var before := ReportOf(init, numeric, score);
      ReportOfEntries(init, numeric, score);
      if numeric(c) {
        var v := score(c).value;
        assert Keys(before.value + [(c, v)]) == Keys(before.value) + [c];
      }
    }
  }

  /** On the columns `main` visits, a score fails exactly when the train sample is empty. */
  lemma ColumnPsiOk(train: seq<Column>, current: seq<Column>, ln: real -> real)
    ensures forall c :: c in Common(Names(train), Names(current)) ==>
      (ColumnPsi(train, current, ln)(c).Ok? <==> |Lookup(train, c).values| > 0)
  {
    forall c | c in Common(Names(train), Names(current))
      ensures ColumnPsi(train, current, ln)(c).Ok? <==> |Lookup(train, c).values| > 0
    {
      assert c in Names(train) && c in Names(current);
      var r := Psi(Lookup(train, c).values, Lookup(current, c).values, Bins, ln);
      assert ColumnPsi(train, current, ln)(c) == r;
    }
  }

  /** `main` fails exactly when some selected column has an empty train sample. */
  lemma ReportOk(train: seq<Column>, current: seq<Column>, ln: real -> real)
    ensures Report(train, current, ln).Ok? <==>
      forall c :: c in Selected(train, current) ==> |Lookup(train, c).values| > 0
  {
    var common := Common(Names(train), Names(current));
    var numeric, score := NumericIn(train), ColumnPsi(train, current, ln);
    ReportOfOk(common, numeric, score);
    ColumnPsiOk(train, current, ln);
    assert forall c :: c in Selected(train, current) <==> c in common && numeric(c);
  }

  /** When `main` succeeds, its keys are `Selected` (present in both tables, not
      `Target`, numeric in train, in train order) and each value is the PSI of that
      column's train and new samples. */
  lemma ReportEntries(train: seq<Column>, current: seq<Column>, ln: real -> real)
    requires Report(train, current, ln).Ok?
    ensures var entries := Report(train, current, ln).value;
      Keys(entries) == Selected(train, current) &&
      forall k :: 0 <= k < |entries| ==>
        entries[k].0 in Names(train) && entries[k].0 in Names(current) &&
        Psi(Lookup(train, entries[k].0).values, Lookup(current, entries[k].0).values, Bins, ln)
          == Ok(entries[k].1)
  {
    var common := Common(Names(train), Names(current));
    var numeric, score := NumericIn(train), ColumnPsi(train, current, ln);
    ReportOfEntries(common, numeric, score);
    var entries := Report(train, current, ln).value;
    forall k | 0 <= k < |entries|
      ensures entries[k].0 in Selected(train, current)
    {
      assert Keys(entries)[k] == entries[k].0;
    }
  }
}
