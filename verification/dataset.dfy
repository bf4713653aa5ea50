/** `DiscreteHmmDataset`: a labelled training sequence read from
    tab-separated lines `<symbol>\t<state>`, with state and symbol labels
    interned through two flyweights.  The file is given as its sequence of
    lines. */
module Datasets {
  import opened Flyweights
  import Text

  datatype Dataset = Dataset(
    trainingSequence: seq<(int, int)>,  // (stateId, symbolId) per accepted line
    states: Flyweight<string>,
    symbols: Flyweight<string>)

  function NumInstances(ds: Dataset): int {
    |ds.trainingSequence|
  }

  function NumStates(ds: Dataset): int {
    NumItems(ds.states)
  }

  function NumSymbols(ds: Dataset): int {
    NumItems(ds.symbols)
  }

  /** Both tables are consistent and every recorded pair holds issued ids. */
  ghost predicate Valid(ds: Dataset) {
    && Flyweights.Valid(ds.states)
    && Flyweights.Valid(ds.symbols)
    && forall i :: 0 <= i < |ds.trainingSequence| ==>
         0 <= ds.trainingSequence[i].0 < NumStates(ds) && 0 <= ds.trainingSequence[i].1 < NumSymbols(ds)
  }

  /** `Clear`: no training pairs and both interning tables emptied. */
  function Clear(ds: Dataset): (r: Dataset)
    ensures Valid(r)
    ensures NumInstances(r) == 0 && NumStates(r) == 0 && NumSymbols(r) == 0
  {
    Dataset([], Flyweights.Clear(ds.states), Flyweights.Clear(ds.symbols))
  }

  /** `AddState`: interns a state label; only the state table changes. */
  function AddState(ds: Dataset, state: string): (r: (Dataset, int))
    requires Valid(ds)
    ensures Valid(r.0)
    ensures r.0.symbols == ds.symbols && r.0.trainingSequence == ds.trainingSequence
    ensures (r.0.states, r.1) == AddItem(ds.states, state)
  {
    var (states, key) := AddItem(ds.states, state);
    (ds.(states := states), key)
  }

  /** `AddSymbol`: interns a symbol label; only the symbol table changes. */
  function AddSymbol(ds: Dataset, symbol: string): (r: (Dataset, int))
    requires Valid(ds)
    ensures Valid(r.0)
    ensures r.0.states == ds.states && r.0.trainingSequence == ds.trainingSequence
    ensures (r.0.symbols, r.1) == AddItem(ds.symbols, symbol)
  {
    var (symbols, key) := AddItem(ds.symbols, symbol);
    (ds.(symbols := symbols), key)
  }

  /** `GetState(key)`: the state label interned under `key`. */
  function GetState(ds: Dataset, key: int): (name: string)
    requires Valid(ds) && 0 <= key < NumStates(ds)
    ensures GetItemKey(ds.states, name) == key
  {
    KeyToItem(ds.states, key)
  }

  /** `GetSymbol(key)`: the symbol label interned under `key`. */
  function GetSymbol(ds: Dataset, key: int): (name: string)
    requires Valid(ds) && 0 <= key < NumSymbols(ds)
    ensures GetItemKey(ds.symbols, name) == key
  {
    KeyToItem(ds.symbols, key)
  }

  /** `line.find("\t")` stored in an `int` (no tab reads as -1). */
  function TabIndex(line: string): int {
    Text.IndexOf(line, '\t')
  }

  /** A line contributes a pair only if its first tab is past index 0: a
      line without a tab, or starting with one, is reported and skipped. */
  predicate Accepted(line: string) {
    TabIndex(line) > 0
  }

  /** The text before the first tab. */
  function SymbolOf(line: string): (symbol: string)
    requires Accepted(line)
    ensures |symbol| > 0 && '\t' !in symbol && line == symbol + "\t" + StateOf(line)
  {
    var k := TabIndex(line);
    assert line == line[..k] + "\t" + line[k + 1..];
    line[..k]
  }

  /** The text after the first tab (it may itself contain tabs). */
  function StateOf(line: string): string
    requires Accepted(line)
  {
    line[TabIndex(line) + 1..]
  }

  /** The accepted lines, in order. */
  function AcceptedLines(lines: seq<string>): (acc: seq<string>)
    ensures |acc| <= |lines|
    ensures forall k :: 0 <= k < |acc| ==> Accepted(acc[k])
    decreases |lines|
  {
    if |lines| == 0 then []
    else
      var init := AcceptedLines(lines[..|lines| - 1]);
      if Accepted(lines[|lines| - 1]) then init + [lines[|lines| - 1]] else init
  }

  /** One iteration of the `Build` loop: for an accepted line, intern the
      state (after the tab) and the symbol (before it) and append the pair
      (stateId, symbolId); any other line leaves the dataset as it was. */
  function BuildLine(ds: Dataset, line: string): (r: Dataset)
    requires Valid(ds)
    ensures Valid(r)
    ensures !Accepted(line) ==> r == ds
    ensures Accepted(line) ==>
      && |r.trainingSequence| == |ds.trainingSequence| + 1
      && r.trainingSequence[..|ds.trainingSequence|] == ds.trainingSequence
      && GetState(r, r.trainingSequence[|ds.trainingSequence|].0) == StateOf(line)
      && GetSymbol(r, r.trainingSequence[|ds.trainingSequence|].1) == SymbolOf(line)
    ensures Prefix(ds.trainingSequence, r.trainingSequence)
    ensures Prefix(ds.states.reverse, r.states.reverse)
    ensures Prefix(ds.symbols.reverse, r.symbols.reverse)
  {
    if Accepted(line) then
      var (states, stateId) := AddItem(ds.states, StateOf(line));
      var (symbols, symbolId) := AddItem(ds.symbols, SymbolOf(line));
      AddItemGrows(ds.states, StateOf(line));
      AddItemGrows(ds.symbols, SymbolOf(line));
      ValidAppend(ds, states, symbols, (stateId, symbolId));
      PrefixSnoc(ds.trainingSequence, (stateId, symbolId));
      Dataset(ds.trainingSequence + [(stateId, symbolId)], states, symbols)
    else
      PrefixRefl(ds.trainingSequence);
      PrefixRefl(ds.states.reverse);
      PrefixRefl(ds.symbols.reverse);
      ds
  }

  /** Interning only appends to the reverse table. */
  lemma AddItemGrows(f: Flyweight<string>, x: string)
    requires Flyweights.Valid(f)
    ensures Prefix(f.reverse, AddItem(f, x).0.reverse)
    ensures NumItems(f) <= NumItems(AddItem(f, x).0)
  {
    if x !in f.reverse {
      PrefixSnoc(f.reverse, x);
    } else {
      PrefixRefl(f.reverse);
    }
  }

  /** A pair of issued ids appended under tables that only grew. */
  lemma ValidAppend(ds: Dataset, states: Flyweight<string>, symbols: Flyweight<string>, pair: (int, int))
    requires Valid(ds) && Flyweights.Valid(states) && Flyweights.Valid(symbols)
    requires NumStates(ds) <= NumItems(states) && NumSymbols(ds) <= NumItems(symbols)
    requires 0 <= pair.0 < NumItems(states) && 0 <= pair.1 < NumItems(symbols)
    ensures Valid(Dataset(ds.trainingSequence + [pair], states, symbols))
  {
    var ts := ds.trainingSequence + [pair];
    forall i | 0 <= i < |ts|
      ensures 0 <= ts[i].0 < NumItems(states) && 0 <= ts[i].1 < NumItems(symbols)
    {
      if i < |ds.trainingSequence| {
        assert ts[i] == ds.trainingSequence[i];
      }
    }
  }

  lemma PrefixSnoc<T>(xs: seq<T>, x: T)
    ensures Prefix(xs, xs + [x])
  {
    assert (xs + [x])[..|xs|] == xs;
  }

  lemma PrefixRefl<T>(xs: seq<T>)
    ensures Prefix(xs, xs)
  {
    assert xs[..|xs|] == xs;
  }

  /** `Build(path)` over the file's lines.  It appends to whatever the
      dataset already holds (nothing is cleared first). */
  function Build(ds: Dataset, lines: seq<string>): (r: Dataset)
    requires Valid(ds)
    ensures Valid(r)
    decreases |lines|
  {
    if |lines| == 0 then ds else BuildLine(Build(ds, lines[..|lines| - 1]), lines[|lines| - 1])
  }

  /** The labels a table has interned. */
  ghost function Labels(f: Flyweight<string>): set<string> {
    set x | x in f.reverse
  }

  /** `xs` is a prefix of `ys`. */
  ghost predicate Prefix<T>(xs: seq<T>, ys: seq<T>) {
    |xs| <= |ys| && ys[..|xs|] == xs
  }

  /** The pairs from position `n` on name, in order, the state and symbol
      of each line in `acc`. */
  ghost predicate Records(r: Dataset, n: int, acc: seq<string>)
    requires Valid(r)
  {
    && 0 <= n
    && |r.trainingSequence| == n + |acc|
    && forall k :: 0 <= k < |acc| ==> RecordsLine(r, n + k, acc[k])
  }

  /** Pair `i` holds the ids of `line`'s state and symbol. */
  ghost predicate RecordsLine(r: Dataset, i: int, line: string)
    requires Valid(r)
  {
    && 0 <= i < |r.trainingSequence|
    && Accepted(line)
    && GetState(r, r.trainingSequence[i].0) == StateOf(line)
    && GetSymbol(r, r.trainingSequence[i].1) == SymbolOf(line)
  }

  /** What `Build` does: one pair per accepted line, in line order, appended
      after the pairs already present; the pair's ids name exactly the
      line's state and symbol; the interning tables only grow. */
  lemma {:induction false} BuildAppends(ds: Dataset, lines: seq<string>)
    requires Valid(ds)
    ensures Records(Build(ds, lines), NumInstances(ds), AcceptedLines(lines))
    ensures Prefix(ds.trainingSequence, Build(ds, lines).trainingSequence)
    ensures Prefix(ds.states.reverse, Build(ds, lines).states.reverse)
    ensures Prefix(ds.symbols.reverse, Build(ds, lines).symbols.reverse)
    decreases |lines|
  {
    if |lines| > 0 {
      var init := lines[..|lines| - 1];
      var line := lines[|lines| - 1];
      BuildAppends(ds, init);
      var p := Build(ds, init);
      if Accepted(line) {
        AppendLine(ds, p, line, AcceptedLines(init));
      }
    }
  }

  /** The inductive step of `BuildAppends` for an accepted line. */
  lemma AppendLine(ds: Dataset, p: Dataset, line: string, accP: seq<string>)
    requires Valid(ds) && Valid(p) && Accepted(line)
    requires Records(p, NumInstances(ds), accP)
    requires Prefix(ds.trainingSequence, p.trainingSequence)
    requires Prefix(ds.states.reverse, p.states.reverse)
    requires Prefix(ds.symbols.reverse, p.symbols.reverse)
    ensures Records(BuildLine(p, line), NumInstances(ds), accP + [line])
    ensures Prefix(ds.trainingSequence, BuildLine(p, line).trainingSequence)
    ensures Prefix(ds.states.reverse, BuildLine(p, line).states.reverse)
    ensures Prefix(ds.symbols.reverse, BuildLine(p, line).symbols.reverse)
  {
    var r := BuildLine(p, line);
    var n := NumInstances(ds);
    PrefixTrans(ds.trainingSequence, p.trainingSequence, r.trainingSequence);
    PrefixTrans(ds.states.reverse, p.states.reverse, r.states.reverse);
    PrefixTrans(ds.symbols.reverse, p.symbols.reverse, r.symbols.reverse);
    RecordsKept(p, r, n, accP);
    assert RecordsLine(r, n + |accP|, line);
    RecordsSnoc(r, n, accP, line);
  }

  /** Records for the earlier lines and one for the next line make records
      for all of them. */
  lemma RecordsSnoc(r: Dataset, n: int, accP: seq<string>, line: string)
    requires Valid(r) && 0 <= n && |r.trainingSequence| == n + |accP| + 1
    requires forall k :: 0 <= k < |accP| ==> RecordsLine(r, n + k, accP[k])
    requires RecordsLine(r, n + |accP|, line)
    ensures Records(r, n, accP + [line])
  {
    var acc := accP + [line];
    forall k | 0 <= k < |acc|
      ensures RecordsLine(r, n + k, acc[k])
    {
      if k < |accP| {
        assert acc[k] == accP[k];
      }
    }
  }

  /** Every pair recorded before an accepted line is still recorded after it. */
  lemma RecordsKept(p: Dataset, r: Dataset, n: int, accP: seq<string>)
    requires Valid(p) && Valid(r) && Records(p, n, accP)
    requires |r.trainingSequence| == |p.trainingSequence| + 1
    requires Prefix(p.trainingSequence, r.trainingSequence)
    requires Prefix(p.states.reverse, r.states.reverse)
    requires Prefix(p.symbols.reverse, r.symbols.reverse)
    ensures forall k :: 0 <= k < |accP| ==> RecordsLine(r, n + k, accP[k])
  {
    forall k | 0 <= k < |accP|
      ensures RecordsLine(r, n + k, accP[k])
    {
      PairKept(p, r, n + k, accP[k]);
    }
  }

  /** A pair recorded before an accepted line still names the same labels
      after it: the tables only gain entries at the end. */
  lemma PairKept(p: Dataset, r: Dataset, i: int, line: string)
    requires Valid(p) && Valid(r)
    requires 0 <= i < |p.trainingSequence| < |r.trainingSequence|
    requires r.trainingSequence[..|p.trainingSequence|] == p.trainingSequence
    requires Prefix(p.states.reverse, r.states.reverse)
    requires Prefix(p.symbols.reverse, r.symbols.reverse)
    requires RecordsLine(p, i, line)
    ensures RecordsLine(r, i, line)
  {
    assert r.trainingSequence[i] == r.trainingSequence[..|p.trainingSequence|][i];
    assert r.states.reverse[p.trainingSequence[i].0] == r.states.reverse[..|p.states.reverse|][p.trainingSequence[i].0];
    assert r.symbols.reverse[p.trainingSequence[i].1] == r.symbols.reverse[..|p.symbols.reverse|][p.trainingSequence[i].1];
  }

  lemma PrefixTrans<T>(xs: seq<T>, ys: seq<T>, zs: seq<T>)
    requires Prefix(xs, ys)
    requires Prefix(ys, zs)
    ensures Prefix(xs, zs)
  {
    assert zs[..|xs|] == zs[..|ys|][..|xs|];
  }

  /** The state labels and the symbol labels of some lines. */
  ghost function StatesOf(acc: seq<string>): set<string>
    requires forall k :: 0 <= k < |acc| ==> Accepted(acc[k])
  {
    set k | 0 <= k < |acc| :: StateOf(acc[k])
  }

  ghost function SymbolsOf(acc: seq<string>): set<string>
    requires forall k :: 0 <= k < |acc| ==> Accepted(acc[k])
  {
    set k | 0 <= k < |acc| :: SymbolOf(acc[k])
  }

  /** `Build` interns exactly the labels of the accepted lines, on top of
      those already there. */
  lemma {:induction false} BuildLabels(ds: Dataset, lines: seq<string>)
    requires Valid(ds)
    ensures Labels(Build(ds, lines).states) == Labels(ds.states) + StatesOf(AcceptedLines(lines))
    ensures Labels(Build(ds, lines).symbols) == Labels(ds.symbols) + SymbolsOf(AcceptedLines(lines))
    decreases |lines|
  {
    if |lines| > 0 {
      var init := lines[..|lines| - 1];
      var line := lines[|lines| - 1];
      BuildLabels(ds, init);
      var p := Build(ds, init);
      var accP := AcceptedLines(init);
      assert Build(ds, lines) == BuildLine(p, line);
      if Accepted(line) {
        assert AcceptedLines(lines) == accP + [line];
        LineLabels(p, line);
        OfSnoc(accP, line);
        UnionAssoc(Labels(ds.states), StatesOf(accP), {StateOf(line)});
        UnionAssoc(Labels(ds.symbols), SymbolsOf(accP), {SymbolOf(line)});
      } else {
        assert AcceptedLines(lines) == accP;
      }
    }
  }

  lemma UnionAssoc<T>(a: set<T>, b: set<T>, c: set<T>)
    ensures (a + b) + c == a + (b + c)
  {
  }

  /** The labels of one more accepted line. */
  lemma OfSnoc(accP: seq<string>, line: string)
    requires forall k :: 0 <= k < |accP| ==> Accepted(accP[k])
    requires Accepted(line)
    ensures StatesOf(accP + [line]) == StatesOf(accP) + {StateOf(line)}
    ensures SymbolsOf(accP + [line]) == SymbolsOf(accP) + {SymbolOf(line)}
  {
    var acc := accP + [line];
    assert acc[|accP|] == line;
    forall k | 0 <= k < |accP| ensures acc[k] == accP[k] {
    }
  }

  /** An accepted line adds its state and its symbol to the labels. */
  lemma LineLabels(ds: Dataset, line: string)
    requires Valid(ds) && Accepted(line)
    ensures Labels(BuildLine(ds, line).states) == Labels(ds.states) + {StateOf(line)}
    ensures Labels(BuildLine(ds, line).symbols) == Labels(ds.symbols) + {SymbolOf(line)}
  {
    var r := BuildLine(ds, line);
    assert r.states == AddItem(ds.states, StateOf(line)).0;
    assert r.symbols == AddItem(ds.symbols, SymbolOf(line)).0;
  }

  /** A table holds one key per distinct label. */
  lemma {:induction false} DistinctCount(xs: seq<string>)
    requires Distinct(xs)
    ensures |set x | x in xs| == |xs|
  {
    if |xs| > 0 {
      var init := xs[..|xs| - 1];
      assert Distinct(init) by {
        forall i, j | 0 <= i < j < |init| ensures init[i] != init[j] {
          assert init[i] == xs[i] && init[j] == xs[j];
        }
      }
      DistinctCount(init);
      assert (set x | x in xs) == (set x | x in init) + {xs[|xs| - 1]};
      assert xs[|xs| - 1] !in init by {
        forall i | 0 <= i < |init| ensures init[i] != xs[|xs| - 1] {
          assert init[i] == xs[i];
        }
      }
    }
  }

  /** Building a cleared dataset gives one state id per distinct state label
      and one symbol id per distinct symbol label among the accepted lines,
      and one pair per accepted line. */
  lemma BuildFromClear(ds: Dataset, lines: seq<string>)
    ensures var r := Build(Clear(ds), lines); var acc := AcceptedLines(lines);
      && NumInstances(r) == |acc|
      && NumStates(r) == |StatesOf(acc)|
      && NumSymbols(r) == |SymbolsOf(acc)|
  {
    var c := Clear(ds);
    var r := Build(c, lines);
    BuildAppends(c, lines);
    BuildLabels(c, lines);
    assert Labels(c.states) == {} && Labels(c.symbols) == {};
    ValidDistinct(r.states);
    ValidDistinct(r.symbols);
    DistinctCount(r.states.reverse);
    DistinctCount(r.symbols.reverse);
  }
}
