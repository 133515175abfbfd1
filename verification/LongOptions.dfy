/**
  IXLandSystem/getopt_long.c, the option tables: which entry of the long table an argument names
  (the loop of parse_long_options).
 */
module LongOptions {
  import opened Wrappers

  const NO_ARGUMENT := 0
  const REQUIRED_ARGUMENT := 1
  const OPTIONAL_ARGUMENT := 2

  /** flag names the caller's variable that val is stored into, if there is one. */
  datatype LongOption = LongOption(name: string, hasArg: int, flag: Option<nat>, val: int)

  datatype Match = Unknown | Ambiguous | Found(index: nat)

  predicate Exact(o: LongOption, word: string) {
    o.name == word
  }

  /** A proper abbreviation, unless it is a single letter that is also a short option. */
  predicate Admissible(o: LongOption, word: string, shortToo: bool) {
    word <= o.name && o.name != word && !(shortToo && |word| == 1)
  }

  predicate SameAction(o: LongOption, p: LongOption) {
    o.hasArg == p.hasArg && o.flag == p.flag && o.val == p.val
  }

  function FirstExact(table: seq<LongOption>, word: string): (i: nat)
    ensures i <= |table|
  {
    if table == [] || Exact(table[0], word) then 0 else 1 + FirstExact(table[1..], word)
  }

  function FirstAdmissible(table: seq<LongOption>, word: string, shortToo: bool): (i: nat)
    ensures i <= |table|
  {
    if table == [] || Admissible(table[0], word, shortToo) then 0 else 1 + FirstAdmissible(table[1..], word, shortToo)
  }

  lemma FirstExactIsFirst(table: seq<LongOption>, word: string)
    ensures var i := FirstExact(table, word);
      && (i < |table| ==> Exact(table[i], word))
      && forall j :: 0 <= j < i ==> !Exact(table[j], word)
  {
  }

  lemma FirstAdmissibleIsFirst(table: seq<LongOption>, word: string, shortToo: bool)
    ensures var i := FirstAdmissible(table, word, shortToo);
      && (i < |table| ==> Admissible(table[i], word, shortToo))
      && forall j :: 0 <= j < i ==> !Admissible(table[j], word, shortToo)
  {
  }

  /** Entry j is a second abbreviation that does not mean the same as entry i. */
  predicate Rival(table: seq<LongOption>, word: string, shortToo: bool, longOnly: bool, i: nat, j: nat)
    requires i < |table| && j < |table|
  {
    Admissible(table[j], word, shortToo) && (longOnly || !SameAction(table[i], table[j]))
  }

  /** Entry i has a rival between itself and n. */
  predicate Disputed(table: seq<LongOption>, word: string, shortToo: bool, longOnly: bool, i: nat, n: nat)
    requires i < |table| && n <= |table|
  {
    i + 1 < n && (Rival(table, word, shortToo, longOnly, i, n - 1) || Disputed(table, word, shortToo, longOnly, i, n - 1))
  }

  lemma DisputedByRival(table: seq<LongOption>, word: string, shortToo: bool, longOnly: bool, i: nat, n: nat)
    requires i < |table| && n <= |table|
    ensures Disputed(table, word, shortToo, longOnly, i, n) <==> exists j :: i < j < n && Rival(table, word, shortToo, longOnly, i, j)
  {
  }

  function Resolve(table: seq<LongOption>, word: string, shortToo: bool, longOnly: bool): (m: Match)
    ensures m.Found? ==> m.index < |table|
  {
    var e := FirstExact(table, word);
    var f := FirstAdmissible(table, word, shortToo);
    if e < |table| then Found(e)
    else if f == |table| then Unknown
    else if Disputed(table, word, shortToo, longOnly, f, |table|) then Ambiguous
    else Found(f)
  }

  method FindLongOption(table: seq<LongOption>, word: string, shortToo: bool, longOnly: bool) returns (m: Match)
    ensures m == Resolve(table, word, shortToo, longOnly)
  {
    var match_, exactMatch, secondPartialMatch := -1, false, false;
    FirstExactIsFirst(table, word);
    FirstAdmissibleIsFirst(table, word, shortToo);
    var i := 0;
    while i < |table|
      invariant 0 <= i <= |table| && -1 <= match_ < i
      invariant i <= FirstExact(table, word)
      invariant match_ == -1 ==> !secondPartialMatch && i <= FirstAdmissible(table, word, shortToo)
      invariant match_ != -1 ==>
        && match_ == FirstAdmissible(table, word, shortToo)
        && secondPartialMatch == Disputed(table, word, shortToo, longOnly, match_, i)
    {
      if word <= table[i].name {
        if |table[i].name| == |word| {
          match_, exactMatch := i, true;
          break;
        }
        if !(shortToo && |word| == 1) {
          if match_ == -1 {
            match_ := i;
          } else if longOnly || table[i].hasArg != table[match_].hasArg
                    || table[i].flag != table[match_].flag || table[i].val != table[match_].val {
            secondPartialMatch := true;
          }
        }
      }
      i := i + 1;
    }
    m := if !exactMatch && secondPartialMatch then Ambiguous else if match_ != -1 then Found(match_) else Unknown;
  }

  /**
    The rule the scan obeys: an exact name wins; a word is ambiguous just when no name is exact and two
    abbreviated entries mean different things (any two, when only long options are wanted); it is
    unknown just when nothing matches. What is found is the first exact entry, or else the first that
    may be abbreviated so.
   */
  lemma ResolveRule(table: seq<LongOption>, word: string, shortToo: bool, longOnly: bool)
    ensures var m := Resolve(table, word, shortToo, longOnly);
      && (m.Unknown? <==> forall o :: o in table ==> !Exact(o, word) && !Admissible(o, word, shortToo))
      && (m.Ambiguous? <==>
           && (forall o :: o in table ==> !Exact(o, word))
           && exists i, j :: 0 <= i < j < |table| && Admissible(table[i], word, shortToo)
                && Rival(table, word, shortToo, longOnly, i, j))
      && (m.Found? ==> Exact(table[m.index], word) || Admissible(table[m.index], word, shortToo))
      && (m.Found? ==> (Exact(table[m.index], word) <==> exists o :: o in table && Exact(o, word)))
      && (m.Found? ==> forall j :: 0 <= j < m.index ==>
           !Exact(table[j], word) && (Exact(table[m.index], word) || !Admissible(table[j], word, shortToo)))
  {
    var f := FirstAdmissible(table, word, shortToo);
    FirstExactIsFirst(table, word);
    FirstAdmissibleIsFirst(table, word, shortToo);
    if f < |table| {
      DisputedByRival(table, word, shortToo, longOnly, f, |table|);
    }
    forall i, j | 0 <= i < j < |table| && Admissible(table[i], word, shortToo) && Rival(table, word, shortToo, longOnly, i, j)
      ensures exists k :: f < k < |table| && Rival(table, word, shortToo, longOnly, f, k)
    {
      // if neither i nor j differed from the first abbreviation, they would not differ from each other
      assert f == i || Rival(table, word, shortToo, longOnly, f, i) || Rival(table, word, shortToo, longOnly, f, j);
    }
  }

  ghost predicate DistinctNames(table: seq<LongOption>) {
    forall i, j :: 0 <= i < j < |table| ==> table[i].name != table[j].name
  }

  /** The outcome does not depend on the order of the table, as far as the returned value can show. */
  lemma OrderIrrelevant(table: seq<LongOption>, other: seq<LongOption>, word: string, shortToo: bool, longOnly: bool)
    requires DistinctNames(table) && DistinctNames(other)
    requires forall o :: o in table <==> o in other
    ensures var m, m' := Resolve(table, word, shortToo, longOnly), Resolve(other, word, shortToo, longOnly);
      && (m.Unknown? <==> m'.Unknown?)
      && (m.Ambiguous? <==> m'.Ambiguous?)
      && (m.Found? && m'.Found? ==> SameAction(table[m.index], other[m'.index]))
  {
    ResolveRule(table, word, shortToo, longOnly);
    ResolveRule(other, word, shortToo, longOnly);
    RivalsMove(table, other, word, shortToo, longOnly);
    RivalsMove(other, table, word, shortToo, longOnly);
    var m, m' := Resolve(table, word, shortToo, longOnly), Resolve(other, word, shortToo, longOnly);
    if m.Found? && m'.Found? {
      assert other[m'.index] in table;
      if !Exact(table[m.index], word) {
        AbbreviationsAgree(table, word, shortToo, longOnly, m.index, other[m'.index]);
      }
    }
  }

  lemma AbbreviationsAgree(table: seq<LongOption>, word: string, shortToo: bool, longOnly: bool, i: nat, o: LongOption)
    requires Resolve(table, word, shortToo, longOnly) == Found(i) && !Exact(table[i], word)
    requires o in table && Admissible(o, word, shortToo)
    ensures SameAction(table[i], o)
  {
    FirstExactIsFirst(table, word);
    FirstAdmissibleIsFirst(table, word, shortToo);
    DisputedByRival(table, word, shortToo, longOnly, i, |table|);
    var k :| 0 <= k < |table| && table[k] == o;
    assert i < k ==> !Rival(table, word, shortToo, longOnly, i, k);
  }

  lemma RivalsMove(table: seq<LongOption>, other: seq<LongOption>, word: string, shortToo: bool, longOnly: bool)
    requires DistinctNames(table)
    requires forall o :: o in table <==> o in other
    ensures (exists i, j :: 0 <= i < j < |table| && Admissible(table[i], word, shortToo)
              && Rival(table, word, shortToo, longOnly, i, j)) ==>
            exists i, j :: 0 <= i < j < |other| && Admissible(other[i], word, shortToo)
              && Rival(other, word, shortToo, longOnly, i, j)
  {
    if i, j :| 0 <= i < j < |table| && Admissible(table[i], word, shortToo) && Rival(table, word, shortToo, longOnly, i, j) {
      assert table[i] in other && table[j] in other;
      var i' :| 0 <= i' < |other| && other[i'] == table[i];
      var j' :| 0 <= j' < |other| && other[j'] == table[j];
      if i' < j' {
        assert Rival(other, word, shortToo, longOnly, i', j');
      } else {
        assert Rival(other, word, shortToo, longOnly, j', i');
      }
    }
  }
}
