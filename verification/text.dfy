/** String helpers of the model-file and dataset readers: `std::string::find`
    on one character, and the `_split` tokenizer of the HMM class together
    with the inverse the model writer uses (joining with a delimiter). */
module Text {

  /** `s.find(c)` with `npos` read back as -1, as the readers store it in an
      `int`: the index of the first `c`, or -1 when there is none. */
  function IndexOf(s: string, c: char): (r: int)
    ensures r == -1 <==> c !in s
    ensures r != -1 ==> 0 <= r < |s| && s[r] == c && c !in s[..r]
    decreases |s|
  {
    if |s| == 0 then -1
    else if s[0] == c then 0
    else
      var k := IndexOf(s[1..], c);
      assert s[1..][..if k == -1 then 0 else k] == s[1..if k == -1 then 1 else k + 1];
      if k == -1 then -1 else k + 1
  }

  /** Every field of `s` between delimiters, Python `str.split` style:
      always one more field than there are delimiters, empty ones included. */
  function Fields(s: string, d: char): (fs: seq<string>)
    ensures |fs| >= 1
    decreases |s|
  {
    var k := IndexOf(s, d);
    if k == -1 then [s] else [s[..k]] + Fields(s[k + 1..], d)
  }

  /** The tokens `t1 d t2 d ... tn`; the empty list joins to "". */
  function Join(ts: seq<string>, d: char): string
    decreases |ts|
  {
    if |ts| == 0 then ""
    else if |ts| == 1 then ts[0]
    else ts[0] + [d] + Join(ts[1..], d)
  }

  /** The `_split` tokenizer: the fields between delimiters, except that the
      field after the last delimiter is only kept when it is non-empty (the
      loop pushes the tail only while `prev < str.length()`).  So "" gives no
      tokens, "a,b," gives ["a", "b"], and "a,,b" keeps its empty token. */
  function Split(s: string, d: char): (tokens: seq<string>)
    ensures forall i :: 0 <= i < |tokens| ==> d !in tokens[i]
    ensures |s| == 0 ==> tokens == []
    ensures |s| > 0 && s[|s| - 1] == d ==> |tokens| == multiset(s)[d]
    ensures |s| > 0 && s[|s| - 1] != d ==> |tokens| == multiset(s)[d] + 1
    ensures (|s| == 0 || s[|s| - 1] == d) ==> tokens + [""] == Fields(s, d)
    ensures |s| > 0 && s[|s| - 1] != d ==> tokens == Fields(s, d)
  {
    var f := Fields(s, d);
    FieldsNoDelimiter(s, d);
    FieldsCount(s, d);
    FieldsLastEmpty(s, d);
    if |s| == 0 || s[|s| - 1] == d then f[..|f| - 1] else f
  }

  lemma {:induction false} FieldsNoDelimiter(s: string, d: char)
    ensures NoneContain(Fields(s, d), d)
    decreases |s|
  {
    var k := IndexOf(s, d);
    if k == -1 {
      FieldsWhole(s, d);
    } else {
      FieldsNoDelimiter(s[k + 1..], d);
      NoDelimiterCons(s[..k], Fields(s[k + 1..], d), d);
    }
  }

  /** No token contains the character. */
  ghost predicate NoneContain(ts: seq<string>, c: char) {
    forall i :: 0 <= i < |ts| ==> c !in ts[i]
  }

  lemma NoDelimiterCons(x: string, rest: seq<string>, d: char)
    requires d !in x && NoneContain(rest, d)
    ensures NoneContain([x] + rest, d)
  {
    var f := [x] + rest;
    forall i | 0 <= i < |f| ensures d !in f[i] {
      if i > 0 {
        assert f[i] == rest[i - 1];
      }
    }
  }

  lemma {:induction false} FieldsCount(s: string, d: char)
    ensures |Fields(s, d)| == multiset(s)[d] + 1
    decreases |s|
  {
    var k := IndexOf(s, d);
    if k == -1 {
      FieldsWhole(s, d);
    } else {
      FieldsUnfold(s, d, k);
      FieldsCount(s[k + 1..], d);
      CountAt(s, k, d);
    }
  }

  /** The delimiters of a text cut at its first one: that one, and those
      after it. */
  lemma CountAt(s: string, k: nat, d: char)
    requires k < |s| && s[k] == d && d !in s[..k]
    ensures multiset(s)[d] == multiset(s[k + 1..])[d] + 1
  {
    CutAt(s, k);
    assert multiset(s) == multiset(s[..k]) + multiset([d]) + multiset(s[k + 1..]);
  }

  /** The last field is empty exactly when `s` is empty or ends with the
      delimiter. */
  lemma {:induction false} FieldsLastEmpty(s: string, d: char)
    ensures var f := Fields(s, d);
      f[|f| - 1] == "" <==> (|s| == 0 || s[|s| - 1] == d)
    decreases |s|
  {
    var k := IndexOf(s, d);
    if k == -1 {
      FieldsWhole(s, d);
    } else {
      var rest := s[k + 1..];
      FieldsUnfold(s, d, k);
      LastOfCons(s[..k], Fields(rest, d));
      FieldsLastEmpty(rest, d);
      SuffixLast(s, k + 1);
    }
  }

  lemma LastOfCons(x: string, rest: seq<string>)
    requires |rest| >= 1
    ensures ([x] + rest)[|[x] + rest| - 1] == rest[|rest| - 1]
  {
  }

  /** Without a delimiter the whole text is the one field. */
  lemma FieldsWhole(s: string, d: char)
    requires IndexOf(s, d) == -1
    ensures Fields(s, d) == [s]
    ensures |s| > 0 ==> s[|s| - 1] != d
  {
    if |s| > 0 {
      assert s[|s| - 1] in s;
    }
  }

  /** A suffix is empty only at the end, and otherwise ends where the
      whole text ends. */
  lemma SuffixLast(s: string, i: nat)
    requires i <= |s|
    ensures |s[i..]| == 0 <==> i == |s|
    ensures |s[i..]| > 0 ==> s[i..][|s[i..]| - 1] == s[|s| - 1]
  {
  }

  /** Joining the fields with the delimiter gives back the input. */
  lemma {:induction false} JoinFields(s: string, d: char)
    ensures Join(Fields(s, d), d) == s
    decreases |s|
  {
    var k := IndexOf(s, d);
    if k == -1 {
      FieldsWhole(s, d);
    } else {
      var t := s[k + 1..];
      FieldsUnfold(s, d, k);
      JoinFields(t, d);
      JoinCons(s[..k], Fields(t, d), d);
      CutAt(s, k);
    }
  }

  /** Joining a list with a first element. */
  lemma JoinCons(x: string, fs: seq<string>, d: char)
    requires |fs| >= 1
    ensures Join([x] + fs, d) == x + [d] + Join(fs, d)
  {
    assert ([x] + fs)[1..] == fs;
  }

  /** A text is its prefix, the character at k and its suffix. */
  lemma CutAt(s: string, k: nat)
    requires k < |s|
    ensures s == s[..k] + [s[k]] + s[k + 1..]
  {
  }

  lemma IndexOfAfterPrefix(p: string, d: char, r: string)
    requires d !in p
    ensures IndexOf(p + [d] + r, d) == |p|
  {
    var s := p + [d] + r;
    assert s[|p|] == d;
    assert s[..|p|] == p;
  }

  /** Splitting a joined list on the delimiter recovers every field, as long
      as no field contains the delimiter. */
  lemma {:induction false} FieldsJoin(ts: seq<string>, d: char)
    requires |ts| >= 1
    requires forall i :: 0 <= i < |ts| ==> d !in ts[i]
    ensures Fields(Join(ts, d), d) == ts
    decreases |ts|
  {
    if |ts| > 1 {
      var tail := ts[1..];
      var rest := Join(tail, d);
      assert Join(ts, d) == ts[0] + [d] + rest;
      FieldsAfterPrefix(ts[0], d, rest);
      FieldsJoin(tail, d);
      assert ts == [ts[0]] + tail;
    }
  }

  /** A field free of the delimiter, then the delimiter: the first field. */
  lemma FieldsAfterPrefix(p: string, d: char, r: string)
    requires d !in p
    ensures Fields(p + [d] + r, d) == [p] + Fields(r, d)
  {
    var s := p + [d] + r;
    IndexOfAfterPrefix(p, d, r);
    assert s[..|p|] == p;
    assert s[|p| + 1..] == r;
  }

  /** Round trip from tokens: `_split` undoes `Join` whenever no token
      contains the delimiter and the last token is non-empty (an empty last
      token is indistinguishable from a trailing delimiter). */
  lemma SplitJoin(ts: seq<string>, d: char)
    requires forall i :: 0 <= i < |ts| ==> d !in ts[i]
    requires |ts| == 0 || ts[|ts| - 1] != ""
    ensures Split(Join(ts, d), d) == ts
  {
    if |ts| > 0 {
      var s := Join(ts, d);
      FieldsJoin(ts, d);
      FieldsLastEmpty(s, d);
    }
  }

  /** Round trip from text: joining the tokens of `s` gives back `s` when it
      does not end with the delimiter, and `s` minus that final delimiter
      when it does. */
  lemma JoinSplit(s: string, d: char)
    ensures |s| > 0 && s[|s| - 1] == d ==> Join(Split(s, d), d) + [d] == s
    ensures !(|s| > 0 && s[|s| - 1] == d) ==> Join(Split(s, d), d) == s
  {
    var f := Fields(s, d);
    JoinFields(s, d);
    if |s| > 0 && s[|s| - 1] == d {
      var t := Split(s, d);
      assert f == t + [""];
      JoinSnoc(t, "", d);
    }
  }

  lemma {:induction false} JoinSnoc(ts: seq<string>, last: string, d: char)
    ensures |ts| == 0 ==> Join(ts + [last], d) == last
    ensures |ts| > 0 ==> Join(ts + [last], d) == Join(ts, d) + [d] + last
    decreases |ts|
  {
    if |ts| > 1 {
      JoinSnoc(ts[1..], last, d);
      assert (ts + [last])[1..] == ts[1..] + [last];
    } else if |ts| == 1 {
      assert (ts + [last])[1..] == [last];
    }
  }

  /** Round trip of delimiter-terminated records (the way lines are read
      back with `getline`): splitting `t1 d t2 d ... tn d` gives every record,
      empty ones included, as long as none contains the delimiter. */
  lemma SplitJoinTerminated(ts: seq<string>, d: char)
    requires |ts| > 0
    requires forall i :: 0 <= i < |ts| ==> d !in ts[i]
    ensures Split(Join(ts, d) + [d], d) == ts
  {
    var s := Join(ts, d) + [d];
    var ext := ts + [""];
    JoinSnoc(ts, "", d);
    assert Join(ext, d) == s;
    forall i | 0 <= i < |ext| ensures d !in ext[i] {
      if i < |ts| { assert ext[i] == ts[i]; }
    }
    FieldsJoin(ext, d);
    var tokens := Split(s, d);
    assert s[|s| - 1] == d;
    assert tokens + [""] == ext;
    assert tokens == (tokens + [""])[..|tokens|] == ext[..|ts|] == ts;
  }

  /** A character that is neither the delimiter nor in any token is not in
      the joined text. */
  lemma {:induction false} JoinAvoids(ts: seq<string>, d: char, c: char)
    requires c != d
    requires forall i :: 0 <= i < |ts| ==> c !in ts[i]
    ensures c !in Join(ts, d)
    decreases |ts|
  {
    if |ts| > 1 {
      JoinAvoids(ts[1..], d, c);
    }
  }

  /** The joined text starts with the first token. */
  lemma JoinStarts(ts: seq<string>, d: char)
    requires |ts| > 0
    ensures |Join(ts, d)| >= |ts[0]|
  {
  }

  /** The joined text is at least as long as any token. */
  lemma {:induction false} JoinLonger(ts: seq<string>, d: char, i: int)
    requires 0 <= i < |ts|
    ensures |ts[i]| <= |Join(ts, d)|
    decreases |ts|
  {
    if i > 0 {
      JoinLonger(ts[1..], d, i - 1);
    }
  }

  /** `indices` lists, in increasing order, exactly the positions below
      `upto` where `s` holds the delimiter. */
  ghost predicate DelimiterPositions(s: string, d: char, indices: seq<int>, upto: int)
  {
    && 0 <= upto <= |s|
    && (forall m :: 0 <= m < |indices| ==> 0 <= indices[m] < upto && s[indices[m]] == d)
    && (forall m, n :: 0 <= m < n < |indices| ==> indices[m] < indices[n])
    && (forall p {:trigger p in indices} :: 0 <= p < upto && s[p] == d ==> p in indices)
  }

  lemma IndexOfIsFirst(s: string, c: char, k: int)
    requires 0 <= k < |s| && s[k] == c && c !in s[..k]
    ensures IndexOf(s, c) == k
  {
  }

  /** Strictly increasing positions leave nothing between neighbours. */
  lemma Between(indices: seq<int>, i: int)
    requires forall m, n :: 0 <= m < n < |indices| ==> indices[m] < indices[n]
    requires 0 <= i <= |indices|
    ensures forall m :: 0 <= m < |indices| ==>
      (i > 0 ==> indices[m] <= indices[i - 1] || indices[m] > indices[i - 1]) &&
      (m < i ==> (i > 0 && indices[m] <= indices[i - 1])) &&
      (m >= i ==> (i < |indices| && indices[m] >= indices[i]))
  {
    forall m | 0 <= m < |indices|
      ensures m < i ==> (i > 0 && indices[m] <= indices[i - 1])
      ensures m >= i ==> (i < |indices| && indices[m] >= indices[i])
    {
      if m < i - 1 {
        assert indices[m] < indices[i - 1];
      }
      if m > i {
        assert indices[i] < indices[m];
      }
    }
  }

  /** Where `prev` starts the i-th field, the delimiter at `indices[i]` is
      the first one at or after `prev`, so the field ends there. */
  lemma SplitStep(str: string, d: char, indices: seq<int>, i: int, prev: int)
    requires DelimiterPositions(str, d, indices, |str|)
    requires 0 <= i < |indices|
    requires i == 0 ==> prev == 0
    requires i > 0 ==> prev == indices[i - 1] + 1
    ensures 0 <= prev <= indices[i]
    ensures Fields(str[prev..], d) == [str[prev..indices[i]]] + Fields(str[indices[i] + 1..], d)
  {
    Between(indices, i);
    var k := indices[i] - prev;
    var rest := str[prev..];
    NoDelimiterBefore(str, d, indices, prev, indices[i]);
    assert rest[..k] == str[prev..indices[i]];
    IndexOfIsFirst(rest, d, k);
    FieldsUnfold(rest, d, k);
    assert rest[k + 1..] == str[indices[i] + 1..];
  }

  /** One turn of the cutting loop keeps the tokens so far followed by
      the fields still to cut equal to all the fields. */
  lemma SplitAdvance(str: string, d: char, indices: seq<int>, i: int, prev: int, tokens: seq<string>)
    requires DelimiterPositions(str, d, indices, |str|)
    requires 0 <= i < |indices|
    requires i == 0 ==> prev == 0
    requires i > 0 ==> prev == indices[i - 1] + 1
    requires 0 <= prev <= |str| && tokens + Fields(str[prev..], d) == Fields(str, d)
    ensures prev <= indices[i]
    ensures (tokens + [str[prev..indices[i]]]) + Fields(str[indices[i] + 1..], d) == Fields(str, d)
  {
    SplitStep(str, d, indices, i, prev);
    AppendAssoc(tokens, [str[prev..indices[i]]], Fields(str[indices[i] + 1..], d));
  }

  lemma AppendAssoc<T>(a: seq<T>, b: seq<T>, c: seq<T>)
    ensures (a + b) + c == a + (b + c)
  {
  }

  lemma NoDelimiterBefore(str: string, d: char, indices: seq<int>, lo: int, hi: int)
    requires DelimiterPositions(str, d, indices, |str|)
    requires 0 <= lo <= hi <= |str|
    requires forall q :: lo <= q < hi ==> q !in indices
    ensures d !in str[lo..hi]
  {
    forall q | lo <= q < hi
      ensures str[q] != d
    {
      assert q !in indices;
    }
    assert forall q :: 0 <= q < hi - lo ==> str[lo..hi][q] == str[lo + q];
  }

  lemma FieldsUnfold(s: string, d: char, k: int)
    requires 0 <= k < |s| && IndexOf(s, d) == k
    ensures Fields(s, d) == [s[..k]] + Fields(s[k + 1..], d)
  {
  }

  /** After the last delimiter, the remaining text is one whole field. */
  lemma SplitTail(str: string, d: char, indices: seq<int>, prev: int)
    requires DelimiterPositions(str, d, indices, |str|)
    requires |indices| == 0 ==> prev == 0
    requires |indices| > 0 ==> prev == indices[|indices| - 1] + 1
    ensures 0 <= prev <= |str|
    ensures Fields(str[prev..], d) == [str[prev..]]
  {
    Between(indices, |indices|);
    NoDelimiterBefore(str, d, indices, prev, |str|);
    assert str[prev..|str|] == str[prev..];
  }

  lemma CollectStep(str: string, d: char, indices: seq<int>, i: int)
    requires 0 <= i < |str|
    requires DelimiterPositions(str, d, indices, i)
    requires |indices| > 0 ==> indices[|indices| - 1] < i
    ensures var next := if str[i] == d then indices + [i] else indices;
      DelimiterPositions(str, d, next, i + 1) && (|next| > 0 ==> next[|next| - 1] < i + 1)
  {
    var next := if str[i] == d then indices + [i] else indices;
    forall m, n | 0 <= m < n < |next|
      ensures next[m] < next[n]
    {
      if n < |indices| {
        assert next[m] == indices[m] && next[n] == indices[n];
      } else {
        assert next[m] == indices[m] <= indices[|indices| - 1];
      }
    }
    forall p | 0 <= p < i + 1 && str[p] == d
      ensures p in next
    {
      if p < i {
        assert p in indices;
      } else {
        assert next[|next| - 1] == p;
      }
    }
  }

  /** The first loop of `_split`: the positions of every delimiter, in
      increasing order. */
  method DelimiterIndices(str: string, delim: char) returns (indices: seq<int>)
    ensures DelimiterPositions(str, delim, indices, |str|)
  {
    indices := [];
    var i := 0;
    while i < |str|
      invariant 0 <= i <= |str|
      invariant DelimiterPositions(str, delim, indices, i)
      invariant |indices| > 0 ==> indices[|indices| - 1] < i
    {
      CollectStep(str, delim, indices, i);
      if str[i] == delim {
        indices := indices + [i];
      }
      i := i + 1;
    }
  }

  /** `_split` as written: collect the delimiter positions, cut the text
      between consecutive positions, and keep the tail only if it is
      non-empty.  The result is exactly `Split`. */
  method SplitLoop(str: string, delim: char) returns (tokens: seq<string>)
    ensures tokens == Split(str, delim)
  {
    var indices := DelimiterIndices(str, delim);
    var prev;
    tokens, prev := CutFields(str, delim, indices);
    CutEnd(str, delim, indices, prev, tokens);
    // the tail is pushed only while `prev < str.length()`
    tokens := tokens + if prev < |str| then [str[prev..]] else [];
  }

  /** The second loop of `_split`: the text between consecutive delimiter
      positions, each delimiter skipped; `prev` ends just past the last. */
  method CutFields(str: string, delim: char, indices: seq<int>) returns (tokens: seq<string>, prev: int)
    requires DelimiterPositions(str, delim, indices, |str|)
    ensures CutState(str, delim, indices, |indices|, prev, tokens)
  {
    tokens := [];
    prev := 0;
    var i := 0;
    CutStart(str, delim, indices);
    while i < |indices|
      invariant CutState(str, delim, indices, i, prev, tokens)
    {
      CutNext(str, delim, indices, i, prev, tokens);
      tokens := tokens + [str[prev..indices[i]]];
      prev := indices[i] + 1;
      i := i + 1;
    }
  }

  /** The state of the cutting loop after i delimiters: `prev` is just past
      the last one, and the tokens so far followed by the fields still to
      cut are all the fields. */
  ghost predicate CutState(str: string, d: char, indices: seq<int>, i: int, prev: int, tokens: seq<string>) {
    && DelimiterPositions(str, d, indices, |str|)
    && 0 <= i <= |indices|
    && (i > 0 ==> prev == indices[i - 1] + 1)
    && (i == 0 ==> prev == 0)
    && 0 <= prev <= |str|
    && tokens + Fields(str[prev..], d) == Fields(str, d)
  }

  lemma CutStart(str: string, d: char, indices: seq<int>)
    requires DelimiterPositions(str, d, indices, |str|)
    ensures CutState(str, d, indices, 0, 0, [])
  {
    assert str[0..] == str;
  }

  lemma CutNext(str: string, d: char, indices: seq<int>, i: int, prev: int, tokens: seq<string>)
    requires CutState(str, d, indices, i, prev, tokens) && i < |indices|
    ensures 0 <= prev <= indices[i] < |str|
    ensures CutState(str, d, indices, i + 1, indices[i] + 1, tokens + [str[prev..indices[i]]])
  {
    SplitAdvance(str, d, indices, i, prev, tokens);
  }

  lemma CutEnd(str: string, d: char, indices: seq<int>, prev: int, tokens: seq<string>)
    requires CutState(str, d, indices, |indices|, prev, tokens)
    ensures 0 <= prev <= |str|
    ensures tokens + (if prev < |str| then [str[prev..]] else []) == Split(str, d)
  {
    SplitTail(str, d, indices, prev);
    SplitFinish(str, d, tokens, prev);
  }

  lemma SplitFinish(str: string, d: char, tokens: seq<string>, prev: int)
    requires 0 <= prev <= |str|
    requires Fields(str[prev..], d) == [str[prev..]]
    requires tokens + Fields(str[prev..], d) == Fields(str, d)
    ensures tokens + (if prev < |str| then [str[prev..]] else []) == Split(str, d)
  {
    FieldsLastEmpty(str, d);
    var f := Fields(str, d);
    assert f[|f| - 1] == str[prev..];
    if prev == |str| {
      assert f[..|f| - 1] == tokens;
    }
    assert tokens + [] == tokens;
  }
}
