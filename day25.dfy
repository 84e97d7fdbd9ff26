// Day 25: keys and locks. Each schematic becomes five column heights; a key
// fits a lock when no column's key and lock heights sum to more than 6.

module Day25 {
  import opened Wrappers

  /** The column heights of a key or a lock. */
  type Heights = seq<nat>

  /** Five heights, each a `u8`. */
  predicate Valid(h: Heights)
  {
    |h| == 5 && forall c :: 0 <= c < |h| ==> h[c] < 256
  }

  datatype Input = Input(keys: seq<Heights>, locks: seq<Heights>)

  /** A schematic whose first character is '.' is a key; any other is a lock. */
  predicate IsKey(first: char)
  {
    first == '.'
  }

  // ------------------------------------------------------------- heights

  /**
   * The height a column takes from row `i`: 6 - i for a key and i for a lock,
   * with `i` cast to `u8`. None where the key's subtraction underflows, which
   * panics.
   */
  function RowHeight(isKey: bool, i: nat): (r: Option<nat>)
    ensures r.Some? ==> r.value < 256 && (isKey ==> r.value <= 6)
    ensures isKey && i <= 6 ==> r == Some(6 - i)
    ensures !isKey && i < 256 ==> r == Some(i)
  {
    var b := i % 256;
    if isKey then (if b <= 6 then Some(6 - b) else None) else Some(b)
  }

  /**
   * Row `i` visits its first `n` characters: a character at column j past
   * the fifth panics, and one that differs from `first` sets a column still
   * at 0 to the row's height.
   */
  function ScanChars(h: Heights, line: string, first: char, isKey: bool, i: nat, n: nat): (r: Option<Heights>)
    requires Valid(h) && n <= |line|
    ensures r.Some? ==> Valid(r.value)
  {
    if n == 0 then Some(h)
    else
      match ScanChars(h, line, first, isKey, i, n - 1)
      case None => None
      case Some(g) =>
        var j := n - 1;
        if j >= 5 then None
        else if g[j] == 0 && line[j] != first then
          match RowHeight(isKey, i)
          case None => None
          case Some(v) => Some(g[j := v])
        else Some(g)
  }

  /** The heights after the first `n` rows. */
  function Scan(lines: seq<string>, first: char, isKey: bool, n: nat): (r: Option<Heights>)
    requires n <= |lines|
    ensures r.Some? ==> Valid(r.value)
  {
    if n == 0 then Some([0, 0, 0, 0, 0])
    else
      match Scan(lines, first, isKey, n - 1)
      case None => None
      case Some(h) => ScanChars(h, lines[n - 1], first, isKey, n - 1, |lines[n - 1]|)
  }

  /** Once a row panics, the rest of the row does too. */
  lemma {:induction false} CharsStayNone(h: Heights, line: string, first: char, isKey: bool, i: nat, n: nat, m: nat)
    requires Valid(h) && n <= m <= |line| && ScanChars(h, line, first, isKey, i, n).None?
    ensures ScanChars(h, line, first, isKey, i, m).None?
    decreases m - n
  {
    if n < m {
      CharsStayNone(h, line, first, isKey, i, n + 1, m);
    }
  }

  /** Once a schematic panics, the rest of it does too. */
  lemma {:induction false} ScanStaysNone(lines: seq<string>, first: char, isKey: bool, n: nat, m: nat)
    requires n <= m <= |lines| && Scan(lines, first, isKey, n).None?
    ensures Scan(lines, first, isKey, m).None?
    decreases m - n
  {
    if n < m {
      ScanStaysNone(lines, first, isKey, n + 1, m);
    }
  }

  /**
   * The height loops of `parse_input` over a five-entry array, one schematic
   * at a time; None where they panic.
   */
  method ScanHeights(lines: seq<string>, first: char) returns (r: Option<Heights>)
    ensures r == Scan(lines, first, IsKey(first), |lines|)
  {
    var isKey := IsKey(first);
    var heights := new nat[5] [0, 0, 0, 0, 0];
    assert heights[..] == [0, 0, 0, 0, 0];
    for i := 0 to |lines|
      invariant Scan(lines, first, isKey, i) == Some(heights[..])
    {
      var line := lines[i];
      ghost var start := heights[..];
      for j := 0 to |line|
        invariant ScanChars(start, line, first, isKey, i, j) == Some(heights[..])
      {
        if j >= 5 {
          CharsStayNone(start, line, first, isKey, i, j + 1, |line|);
          ScanStaysNone(lines, first, isKey, i + 1, |lines|);
          return None;
        }
        if heights[j] == 0 && line[j] != first {
          var v := RowHeight(isKey, i);
          if v.None? {
            CharsStayNone(start, line, first, isKey, i, j + 1, |line|);
            ScanStaysNone(lines, first, isKey, i + 1, |lines|);
            return None;
          }
          heights[j] := v.value;
        }
      }
    }
    r := Some(heights[..]);
  }

  // -------------------------------------------------- what a height means

  /** Row `i` has a character other than `first` at column `j`. */
  predicate Differs(lines: seq<string>, first: char, i: nat, j: nat)
    requires i < |lines|
  {
    j < |lines[i]| && lines[i][j] != first
  }

  /** Column `j` after visiting `n` characters of a row. */
  lemma {:induction false} ScanCharsColumn(h: Heights, line: string, first: char, isKey: bool, i: nat, n: nat, j: nat)
    requires Valid(h) && n <= |line| && j < 5 && ScanChars(h, line, first, isKey, i, n).Some?
    ensures j < n && h[j] == 0 && line[j] != first ==> RowHeight(isKey, i).Some?
    ensures ScanChars(h, line, first, isKey, i, n).value[j] ==
      if j < n && h[j] == 0 && line[j] != first then RowHeight(isKey, i).value else h[j]
  {
    if n > 0 {
      ScanCharsColumn(h, line, first, isKey, i, n - 1, j);
    }
  }

  /**
   * A column no row differs in keeps height 0; otherwise the first row that
   * differs in it sets its height, unless that height is 0, the value the
   * source uses for "not yet set".
   */
  lemma ColumnHeight(lines: seq<string>, first: char, isKey: bool, n: nat, j: nat)
    requires n <= |lines| && j < 5 && Scan(lines, first, isKey, n).Some?
    ensures (forall i :: 0 <= i < n ==> !Differs(lines, first, i, j)) ==>
      Scan(lines, first, isKey, n).value[j] == 0
    ensures forall i0 :: 0 <= i0 < n && Differs(lines, first, i0, j) &&
                         (forall i :: 0 <= i < i0 ==> !Differs(lines, first, i, j)) &&
                         RowHeight(isKey, i0).Some? && RowHeight(isKey, i0).value != 0 ==>
      Scan(lines, first, isKey, n).value[j] == RowHeight(isKey, i0).value
  {
    if forall i :: 0 <= i < n ==> !Differs(lines, first, i, j) {
      ColumnUnset(lines, first, isKey, n, j);
    }
    forall i0 | 0 <= i0 < n && Differs(lines, first, i0, j) &&
                (forall i :: 0 <= i < i0 ==> !Differs(lines, first, i, j)) &&
                RowHeight(isKey, i0).Some? && RowHeight(isKey, i0).value != 0
      ensures Scan(lines, first, isKey, n).value[j] == RowHeight(isKey, i0).value
    {
      ColumnSet(lines, first, isKey, n, j, i0);
    }
  }

  /** A column no row differs in keeps height 0. */
  lemma {:induction false} ColumnUnset(lines: seq<string>, first: char, isKey: bool, n: nat, j: nat)
    requires n <= |lines| && j < 5 && Scan(lines, first, isKey, n).Some?
    requires forall i :: 0 <= i < n ==> !Differs(lines, first, i, j)
    ensures Scan(lines, first, isKey, n).value[j] == 0
  {
    if n > 0 {
      var h := Scan(lines, first, isKey, n - 1).value;
      ColumnUnset(lines, first, isKey, n - 1, j);
      ScanCharsColumn(h, lines[n - 1], first, isKey, n - 1, |lines[n - 1]|, j);
      assert !Differs(lines, first, n - 1, j);
    }
  }

  /** The first row `i0` that differs in a column sets its height, when that height is not 0. */
  lemma {:induction false} ColumnSet(lines: seq<string>, first: char, isKey: bool, n: nat, j: nat, i0: nat)
    requires n <= |lines| && j < 5 && Scan(lines, first, isKey, n).Some?
    requires i0 < n && Differs(lines, first, i0, j) && (forall i :: 0 <= i < i0 ==> !Differs(lines, first, i, j))
    requires RowHeight(isKey, i0).Some? && RowHeight(isKey, i0).value != 0
    ensures Scan(lines, first, isKey, n).value[j] == RowHeight(isKey, i0).value
  {
    var h := Scan(lines, first, isKey, n - 1).value;
    ScanCharsColumn(h, lines[n - 1], first, isKey, n - 1, |lines[n - 1]|, j);
    if i0 < n - 1 {
      ColumnSet(lines, first, isKey, n - 1, j, i0);
    } else {
      ColumnUnset(lines, first, isKey, n - 1, j);
    }
  }

  /** A row longer than five characters makes the height loops panic. */
  lemma LongLinePanics(lines: seq<string>, first: char, isKey: bool, i: nat)
    requires i < |lines| && |lines[i]| > 5
    ensures Scan(lines, first, isKey, |lines|).None?
  {
    var prev := Scan(lines, first, isKey, i);
    if prev.Some? {
      CharsStayNone(prev.value, lines[i], first, isKey, i, 6, |lines[i]|);
    }
    ScanStaysNone(lines, first, isKey, if prev.None? then i else i + 1, |lines|);
  }

  /** Every height of a key is at most 6. */
  lemma {:induction false} KeyHeightsAtMostSix(lines: seq<string>, first: char, n: nat)
    requires n <= |lines| && Scan(lines, first, true, n).Some?
    ensures forall c :: 0 <= c < 5 ==> Scan(lines, first, true, n).value[c] <= 6
  {
    if n > 0 {
      var h := Scan(lines, first, true, n - 1).value;
      KeyHeightsAtMostSix(lines, first, n - 1);
      forall c | 0 <= c < 5
        ensures Scan(lines, first, true, n).value[c] <= 6
      {
        ScanCharsColumn(h, lines[n - 1], first, true, n - 1, |lines[n - 1]|, c);
      }
    }
  }

  // ------------------------------------------------------------- parsing

  /** A schematic as its trimmed lines. */
  type Schematic = seq<string>

  /** The character the schematic starts with; None where `unwrap` panics on an empty one. */
  function FirstChar(s: Schematic): Option<char>
  {
    if |s| == 0 || |s[0]| == 0 then None else Some(s[0][0])
  }

  /** The schematic's heights; None where parsing it panics. */
  function HeightsOf(s: Schematic): Option<Heights>
  {
    match FirstChar(s)
    case None => None
    case Some(c) => Scan(s, c, IsKey(c), |s|)
  }

  /** Every entry is five `u8` heights. */
  predicate AllValid(hs: seq<Heights>)
  {
    forall i :: 0 <= i < |hs| ==> Valid(hs[i])
  }

  /** The number of schematics that start with '.'. */
  function KeyCount(ss: seq<Schematic>): nat
  {
    if ss == [] then 0
    else KeyCount(ss[..|ss| - 1]) + if FirstChar(ss[|ss| - 1]) == Some('.') then 1 else 0
  }

  /**
   * `parse_input` over the schematics in order: each goes to the keys or
   * the locks; None where any of them panics.
   */
  function Parse(ss: seq<Schematic>): (r: Option<Input>)
    ensures r.None? <==> exists i :: 0 <= i < |ss| && HeightsOf(ss[i]).None?
    ensures r.Some? ==> |r.value.keys| == KeyCount(ss) && |r.value.keys| + |r.value.locks| == |ss|
    ensures r.Some? ==> AllValid(r.value.keys) && AllValid(r.value.locks)
    ensures r.Some? ==> forall i, c :: 0 <= i < |r.value.keys| && 0 <= c < 5 ==> r.value.keys[i][c] <= 6
  {
    if ss == [] then Some(Input([], []))
    else
      var last := ss[|ss| - 1];
      match Parse(ss[..|ss| - 1])
      case None =>
        assert forall i :: 0 <= i < |ss| - 1 ==> ss[..|ss| - 1][i] == ss[i];
        None
      case Some(inp) =>
        match HeightsOf(last)
        case None => None
        case Some(h) =>
          assert forall i :: 0 <= i < |ss| - 1 ==> ss[..|ss| - 1][i] == ss[i];
          if IsKey(FirstChar(last).value) then
            KeyHeightsAtMostSix(last, '.', |last|);
            Some(Input(inp.keys + [h], inp.locks))
          else Some(Input(inp.keys, inp.locks + [h]))
  }

  /** The loop of `parse_input`: sorts each schematic's heights into keys or locks. */
  method ParseInput(ss: seq<Schematic>) returns (r: Option<Input>)
    ensures r == Parse(ss)
  {
    var keys: seq<Heights> := [];
    var locks: seq<Heights> := [];
    for i := 0 to |ss|
      invariant Parse(ss[..i]) == Some(Input(keys, locks))
    {
      assert ss[..i + 1][..i] == ss[..i];
      var first := FirstChar(ss[i]);
      if first.None? {
        return None;
      }
      var h := ScanHeights(ss[i], first.value);
      if h.None? {
        return None;
      }
      if IsKey(first.value) {
        keys := keys + [h.value];
      } else {
        locks := locks + [h.value];
      }
    }
    assert ss[..|ss|] == ss;
    r := Some(Input(keys, locks));
  }

  // ------------------------------------------------------------ matching

  /** Every column's key and lock heights sum to at most 6. */
  predicate Fits(k: Heights, l: Heights)
    requires Valid(k) && Valid(l)
  {
    forall c :: 0 <= c < 5 ==> k[c] + l[c] <= 6
  }

  /**
   * The `u8` sums the short-circuiting `all` computes never overflow: each
   * column reached after fitting columns sums below 256.
   */
  predicate NoOverflow(k: Heights, l: Heights)
    requires Valid(k) && Valid(l)
  {
    forall c :: 0 <= c < 5 && (forall d :: 0 <= d < c ==> k[d] + l[d] <= 6) ==> k[c] + l[c] < 256
  }

  /** The `all` over the zipped columns, stopping at the first column that does not fit. */
  method AllFit(k: Heights, l: Heights) returns (b: bool)
    requires Valid(k) && Valid(l) && NoOverflow(k, l)
    ensures b == Fits(k, l)
  {
    var c := 0;
    while c < 5
      invariant 0 <= c <= 5
      invariant forall d :: 0 <= d < c ==> k[d] + l[d] <= 6
    {
      var sum := k[c] + l[c];
      assert sum < 256;
      if sum > 6 {
        return false;
      }
      c := c + 1;
    }
    return true;
  }

  /** The locks the key fits. */
  function RowMatches(k: Heights, locks: seq<Heights>): nat
    requires Valid(k) && AllValid(locks)
  {
    if locks == [] then 0
    else RowMatches(k, locks[..|locks| - 1]) + if Fits(k, locks[|locks| - 1]) then 1 else 0
  }

  /** The (key, lock) pairs that fit. */
  function Matches(keys: seq<Heights>, locks: seq<Heights>): nat
    requires AllValid(keys) && AllValid(locks)
  {
    if keys == [] then 0
    else Matches(keys[..|keys| - 1], locks) + RowMatches(keys[|keys| - 1], locks)
  }

  /** Every pair can be compared without overflow. */
  predicate NoOverflows(keys: seq<Heights>, locks: seq<Heights>)
    requires AllValid(keys) && AllValid(locks)
  {
    forall i, j :: 0 <= i < |keys| && 0 <= j < |locks| ==> NoOverflow(keys[i], locks[j])
  }

  /** `count_potential_matches`: every key against every lock. */
  method CountPotentialMatches(input: Input) returns (count: nat)
    requires AllValid(input.keys) && AllValid(input.locks) && NoOverflows(input.keys, input.locks)
    ensures count == Matches(input.keys, input.locks)
  {
    var keys, locks := input.keys, input.locks;
    count := 0;
    for i := 0 to |keys|
      invariant AllValid(keys[..i]) && count == Matches(keys[..i], locks)
    {
      assert keys[..i + 1][..i] == keys[..i];
      var row := CountRow(keys[i], locks);
      count := count + row;
    }
    assert keys[..|keys|] == keys;
  }

  /** The inner loop of `count_potential_matches`: key `i` against every lock. */
  method CountRow(k: Heights, locks: seq<Heights>) returns (row: nat)
    requires Valid(k) && AllValid(locks) && forall j :: 0 <= j < |locks| ==> NoOverflow(k, locks[j])
    ensures row == RowMatches(k, locks)
  {
    row := 0;
    for j := 0 to |locks|
      invariant AllValid(locks[..j]) && row == RowMatches(k, locks[..j])
    {
      assert locks[..j + 1][..j] == locks[..j];
      var fits := AllFit(k, locks[j]);
      if fits {
        row := row + 1;
      }
    }
    assert locks[..|locks|] == locks;
  }

  // ------------------------------------------------------- count properties

  /** A key fits at most every lock, all of them exactly when it fits each, none exactly when it fits none. */
  lemma {:induction false} RowMatchesRange(k: Heights, locks: seq<Heights>)
    requires Valid(k) && AllValid(locks)
    ensures RowMatches(k, locks) <= |locks|
    ensures RowMatches(k, locks) == |locks| <==> forall j :: 0 <= j < |locks| ==> Fits(k, locks[j])
    ensures RowMatches(k, locks) == 0 <==> forall j :: 0 <= j < |locks| ==> !Fits(k, locks[j])
  {
    if locks != [] {
      var init := locks[..|locks| - 1];
      assert forall j :: 0 <= j < |init| ==> init[j] == locks[j];
      RowMatchesRange(k, init);
    }
  }

  /** The count is at most |keys| × |locks|. */
  lemma {:induction false} MatchesBound(keys: seq<Heights>, locks: seq<Heights>)
    requires AllValid(keys) && AllValid(locks)
    ensures Matches(keys, locks) <= |keys| * |locks|
  {
    if keys != [] {
      var init := keys[..|keys| - 1];
      MatchesBound(init, locks);
      RowMatchesRange(keys[|keys| - 1], locks);
      assert |keys| * |locks| == |init| * |locks| + |locks|;
    }
  }

  /** Every key and lock can be compared safely when keys are at most 6 and locks below 250. */
  lemma SmallHeightsNoOverflow(keys: seq<Heights>, locks: seq<Heights>)
    requires AllValid(keys) && AllValid(locks)
    requires forall i, c :: 0 <= i < |keys| && 0 <= c < 5 ==> keys[i][c] <= 6
    requires forall j, c :: 0 <= j < |locks| && 0 <= c < 5 ==> locks[j][c] < 250
    ensures NoOverflows(keys, locks)
  {
  }

  /** The count is |keys| × |locks| exactly when every key fits every lock. */
  lemma {:induction false} MatchesAll(keys: seq<Heights>, locks: seq<Heights>)
    requires AllValid(keys) && AllValid(locks)
    ensures Matches(keys, locks) == |keys| * |locks| <==>
      forall i, j :: 0 <= i < |keys| && 0 <= j < |locks| ==> Fits(keys[i], locks[j])
  {
    if keys != [] {
      var init := keys[..|keys| - 1];
      assert forall i :: 0 <= i < |init| ==> init[i] == keys[i];
      MatchesAll(init, locks);
      MatchesBound(init, locks);
      RowMatchesRange(keys[|keys| - 1], locks);
      assert |keys| * |locks| == |init| * |locks| + |locks|;
    }
  }

  /** The count is 0 exactly when no key fits any lock. */
  lemma {:induction false} MatchesNone(keys: seq<Heights>, locks: seq<Heights>)
    requires AllValid(keys) && AllValid(locks)
    ensures Matches(keys, locks) == 0 <==>
      forall i, j :: 0 <= i < |keys| && 0 <= j < |locks| ==> !Fits(keys[i], locks[j])
  {
    if keys != [] {
      var init := keys[..|keys| - 1];
      assert forall i :: 0 <= i < |init| ==> init[i] == keys[i];
      MatchesNone(init, locks);
      RowMatchesRange(keys[|keys| - 1], locks);
    }
  }
}
