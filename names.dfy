/**
 * The column-name normalisation of `clean_scraped_data`: names are
 * stripped and their `\n`, `\r`, `\t` become spaces; then every occurrence
 * of a name that occurs more than once is suffixed with its occurrence
 * index, the first one included (`X_0`, `X_1`, ...).
 */
module ColumnNames {
  import opened Strings

  /** `df.columns.str.strip().str.replace(r'[\n\r\t]', ' ')` */
  function CleanNames(cols: seq<string>): (r: seq<string>)
    ensures |r| == |cols|
    ensures forall j :: 0 <= j < |cols| ==> r[j] == ReplaceControl(Strip(cols[j]))
  {
    seq(|cols|, j requires 0 <= j < |cols| => ReplaceControl(Strip(cols[j])))
  }

  /** A cleaned name holds no tab or line break and neither starts nor ends with white space. */
  lemma CleanNameShape(name: string)
    ensures var r := ReplaceControl(Strip(name));
      '\n' !in r && '\r' !in r && '\t' !in r
      && (r != [] ==> !IsSpace(r[0]) && !IsSpace(r[|r| - 1]))
  {
    var s := Strip(name);
    var r := ReplaceControl(s);
    forall k | 0 <= k < |r|
      ensures r[k] != '\n' && r[k] != '\r' && r[k] != '\t'
    {
    }
    if r != [] {
      assert IsSpace('\n') && IsSpace('\r') && IsSpace('\t');
      assert r[0] == s[0] && r[|r| - 1] == s[|s| - 1];
    }
  }

  /** The number of positions before `n` that hold `x`. */
  function CountIn(cols: seq<string>, x: string, n: nat): (c: nat)
    requires n <= |cols|
    ensures c <= n
  {
    if n == 0 then 0 else CountIn(cols, x, n - 1) + (if cols[n - 1] == x then 1 else 0)
  }

  lemma {:induction false} CountInMonotone(cols: seq<string>, x: string, m: nat, n: nat)
    requires m <= n <= |cols|
    ensures CountIn(cols, x, m) <= CountIn(cols, x, n)
    decreases n
  {
    if m < n {
      CountInMonotone(cols, x, m, n - 1);
    }
  }

  /** `x_i`, the name given to the `i`-th occurrence of a repeated name `x`. */
  function Suffixed(x: string, i: nat): string {
    x + "_" + NatToString(i)
  }

  /**
   * The names after the duplicate renaming: a name occurring more than once
   * becomes, at each position, itself suffixed with the number of earlier
   * occurrences; any other name is kept.
   */
  function DedupNames(cols: seq<string>): (r: seq<string>)
    ensures |r| == |cols|
  {
    seq(|cols|, m requires 0 <= m < |cols| =>
      if CountIn(cols, cols[m], |cols|) > 1 then Suffixed(cols[m], CountIn(cols, cols[m], m)) else cols[m])
  }

  /** `cols[cols.duplicated()].unique()` from position `k` on: the names whose second occurrence is at or after `k`, in that order. */
  function DuplicatedFrom(cols: seq<string>, k: nat): (r: seq<string>)
    requires k <= |cols|
    ensures forall x :: x in r ==> CountIn(cols, x, |cols|) > 1
    ensures forall m :: k <= m < |cols| && CountIn(cols, cols[m], m) == 1 ==> cols[m] in r
    decreases |cols| - k
  {
    if k == |cols| then []
    else
      var rest := DuplicatedFrom(cols, k + 1);
      if CountIn(cols, cols[k], k) == 1 then
        CountInMonotone(cols, cols[k], k + 1, |cols|);
        [cols[k]] + rest
      else rest
  }

  /** A name occurring at least twice before `n` has its second occurrence before `n`. */
  lemma {:induction false} SecondOccurrence(cols: seq<string>, x: string, n: nat)
    requires n <= |cols| && CountIn(cols, x, n) >= 2
    ensures exists m :: 0 <= m < n && cols[m] == x && CountIn(cols, x, m) == 1
  {
    if CountIn(cols, x, n - 1) >= 2 {
      SecondOccurrence(cols, x, n - 1);
    } else {
      assert cols[n - 1] == x && CountIn(cols, x, n - 1) == 1;
    }
  }

  /** The duplicated names are exactly the names that occur more than once. */
  lemma DuplicatedIff(cols: seq<string>, x: string)
    ensures x in DuplicatedFrom(cols, 0) <==> CountIn(cols, x, |cols|) > 1
  {
    if CountIn(cols, x, |cols|) > 1 {
      SecondOccurrence(cols, x, |cols|);
    }
  }

  /**
   * The duplicate renaming: for each duplicated name, in the order of its
   * second occurrence, its occurrences are visited in position order and
   * numbered from 0. The occurrences are looked up in the names as they
   * were before any renaming.
   */
  method RenameDuplicates(cols: seq<string>) returns (names: seq<string>)
    ensures names == DedupNames(cols)
  {
    names := cols;
    var dups := DuplicatedFrom(cols, 0);
    for d := 0 to |dups|
      invariant |names| == |cols|
      invariant forall m :: 0 <= m < |cols| ==>
        names[m] == (if cols[m] in dups[..d] then Suffixed(cols[m], CountIn(cols, cols[m], m)) else cols[m])
    {
      names := RenameOccurrences(cols, names, dups[d]);
      assert dups[..d + 1] == dups[..d] + [dups[d]];
    }
    assert dups[..|dups|] == dups;
    forall m | 0 <= m < |cols|
      ensures names[m] == DedupNames(cols)[m]
    {
      DuplicatedIff(cols, cols[m]);
    }
  }

  /** `for i, idx in enumerate(dups): df.columns.values[idx] = f"{dup}_{i}"` */
  method RenameOccurrences(cols: seq<string>, names: seq<string>, dup: string) returns (renamed: seq<string>)
    requires |names| == |cols|
    ensures |renamed| == |cols|
    ensures forall m :: 0 <= m < |cols| ==>
      renamed[m] == (if cols[m] == dup then Suffixed(dup, CountIn(cols, dup, m)) else names[m])
  {
    renamed := names;
    var i := 0;
    for idx := 0 to |cols|
      invariant |renamed| == |cols|
      invariant i == CountIn(cols, dup, idx)
      invariant forall m :: 0 <= m < |cols| ==>
        renamed[m] == (if cols[m] == dup && m < idx then Suffixed(dup, CountIn(cols, dup, m)) else names[m])
    {
      if cols[idx] == dup {
        renamed := renamed[idx := Suffixed(dup, i)];
        i := i + 1;
      }
    }
  }

  /** After the `_` that ends `x`, `x_i` holds only digits. */
  lemma SuffixHasNoUnderscore(x: string, i: nat, k: nat)
    requires |x| < k < |Suffixed(x, i)|
    ensures Suffixed(x, i)[k] != '_'
  {
    assert Suffixed(x, i)[k] == NatToString(i)[k - |x| - 1];
  }

  /** A suffix holds no `_`, so the suffixed text determines the name and the occurrence index. */
  lemma SuffixedInjective(x: string, i: nat, y: string, j: nat)
    requires Suffixed(x, i) == Suffixed(y, j)
    ensures x == y && i == j
  {
    var s, t := Suffixed(x, i), Suffixed(y, j);
    if |x| < |y| {
      SuffixHasNoUnderscore(x, i, |y|);
      assert false;
    } else if |y| < |x| {
      SuffixHasNoUnderscore(y, j, |x|);
      assert false;
    }
    assert x == s[..|x|] && y == t[..|y|];
    assert NatToString(i) == s[|x| + 1..] && NatToString(j) == t[|y| + 1..];
    NatToStringInjective(i, j);
  }

  /** No name is another name suffixed with an occurrence index. */
  ghost predicate NoSuffixedName(cols: seq<string>) {
    forall m, k, i :: 0 <= m < |cols| && 0 <= k < |cols| && 0 <= i ==> cols[m] != Suffixed(cols[k], i)
  }

  lemma CountInAt(cols: seq<string>, x: string, m: nat, n: nat)
    requires m < n <= |cols| && cols[m] == x
    ensures CountIn(cols, x, m) < CountIn(cols, x, n)
  {
    CountInMonotone(cols, x, m + 1, n);
  }

  /** When no name already looks like a renamed one, the renaming leaves every name distinct. */
  lemma DedupNamesDistinct(cols: seq<string>)
    requires NoSuffixedName(cols)
    ensures Distinct(DedupNames(cols))
  {
    var r := DedupNames(cols);
    forall k, l | 0 <= k < l < |r|
      ensures r[k] != r[l]
    {
      var ck, cl := CountIn(cols, cols[k], |cols|) > 1, CountIn(cols, cols[l], |cols|) > 1;
      if ck && cl && r[k] == r[l] {
        SuffixedInjective(cols[k], CountIn(cols, cols[k], k), cols[l], CountIn(cols, cols[l], l));
        CountInAt(cols, cols[k], k, l);
      } else if !ck && !cl && cols[k] == cols[l] {
        CountInAt(cols, cols[k], k, l);
        CountInMonotone(cols, cols[k], l + 1, |cols|);
      }
    }
  }

  /** Without that condition names can collide: `a, a, a_0` becomes `a_0, a_1, a_0`. */
  lemma DedupNamesCollision()
    ensures DedupNames(["a", "a", "a_0"]) == ["a_0", "a_1", "a_0"]
  {
    var cols := ["a", "a", "a_0"];
    assert CountIn(cols, "a", 3) == 2 && CountIn(cols, "a_0", 3) == 1;
    assert CountIn(cols, "a", 0) == 0 && CountIn(cols, "a", 1) == 1;
    assert NatToString(0) == "0" && NatToString(1) == "1";
    var r := DedupNames(cols);
    assert r[0] == Suffixed("a", 0) == "a_0";
    assert r[1] == Suffixed("a", 1) == "a_1";
    assert r[2] == "a_0";
  }
}
