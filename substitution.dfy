/**
  Rendering of text leaves: the ordered replacement table (escaped space, the two
  dashes, then every reserved word split by a zero-width non-joiner) applied in
  table order, each entry replacing every occurrence in what the previous entries left.
 */
module Substitution {
  import opened Strings

  const ZWNJ: char := '‌'
  const HorizontalBar: char := '―'
  const FigureDash: char := '‒'

  /** A dictionary with insertion order, as a sequence of (key, value) pairs. */
  type Table = seq<(string, string)>

  predicate DistinctKeys(t: Table) {
    forall i, j :: 0 <= i < j < |t| ==> t[i].0 != t[j].0
  }

  /** The keys of a table, in order. */
  function Keys(t: Table): (ks: seq<string>)
    ensures |ks| == |t| && forall i :: 0 <= i < |t| ==> ks[i] == t[i].0
  {
    seq(|t|, i requires 0 <= i < |t| => t[i].0)
  }

  /**
    A reserved word with a zero-width non-joiner inserted at the midpoint of its
    characters, so the downstream renderer no longer recognises it while it looks the same.
   */
  function Split(w: string): (r: string)
    ensures |r| == |w| + 1
    ensures r[|w| / 2] == ZWNJ
    ensures r[..|w| / 2] == w[..|w| / 2] && r[|w| / 2 + 1..] == w[|w| / 2..]
    ensures forall c :: c in r && c != ZWNJ ==> c in w
  {
    w[..|w| / 2] + [ZWNJ] + w[|w| / 2..]
  }

  /**
    `d[k] = v`: an existing key keeps its position and takes the new value,
    a new key goes at the end.
   */
  function Assign(t: Table, k: string, v: string): (r: Table)
    ensures |r| == if k in Keys(t) then |t| else |t| + 1
    ensures forall i :: 0 <= i < |t| ==> r[i] == (if t[i].0 == k then (k, v) else t[i])
    ensures k !in Keys(t) ==> r[|t|] == (k, v)
    ensures DistinctKeys(t) ==> DistinctKeys(r)
    ensures k in Keys(r)
  {
    var over := seq(|t|, i requires 0 <= i < |t| => if t[i].0 == k then (k, v) else t[i]);
    if k in Keys(t) then
      var i :| 0 <= i < |t| && Keys(t)[i] == k;
      assert Keys(over)[i] == k;
      over
    else
      var r := t + [(k, v)];
      assert Keys(r)[|t|] == k;
      r
  }

  /** The three fixed entries, in the order they are declared. */
  function BaseTable(): (t: Table)
    ensures DistinctKeys(t) && Keys(t) == [" ", "--", "-"]
  {
    [(" ", "\\ "), ("--", [HorizontalBar]), ("-", [FigureDash])]
  }

  /**
    The words not in `seen`, each kept at its first occurrence only, in the order
    they first occur.
   */
  function FirstOccurrences(words: seq<string>, seen: seq<string>): seq<string> {
    if words == [] then []
    else if words[0] in seen then FirstOccurrences(words[1..], seen)
    else [words[0]] + FirstOccurrences(words[1..], seen + [words[0]])
  }

  /**
    The first occurrences are exactly the words not already seen, each once, and none
    of them was seen before.
   */
  lemma {:induction false} FirstOccurrencesExactly(words: seq<string>, seen: seq<string>)
    ensures var f := FirstOccurrences(words, seen);
      (forall w :: w in f <==> w in words && w !in seen)
      && (forall i, j :: 0 <= i < j < |f| ==> f[i] != f[j])
    decreases |words|
  {
    if words != [] {
      var w := words[0];
      assert words == [w] + words[1..];
      if w in seen {
        FirstOccurrencesExactly(words[1..], seen);
      } else {
        FirstOccurrencesExactly(words[1..], seen + [w]);
        var rest := FirstOccurrences(words[1..], seen + [w]);
        assert w !in rest;
        var f := [w] + rest;
        forall i, j | 0 <= i < j < |f| ensures f[i] != f[j] {
          if i > 0 {
            assert f[i] == rest[i - 1] && f[j] == rest[j - 1];
          }
        }
      }
    }
  }

  /** The keys after an assignment: unchanged for an existing key, the new key last otherwise. */
  lemma KeysAssign(t: Table, k: string, v: string)
    ensures Keys(Assign(t, k, v)) == if k in Keys(t) then Keys(t) else Keys(t) + [k]
  {
  }

  /**
    `dict.update` with every reserved word mapped to its split form: the keys already
    present keep their slots, and the new words follow in first-occurrence order.
   */
  function AddReserved(t: Table, words: seq<string>): (r: Table)
    requires DistinctKeys(t)
    ensures Keys(r) == Keys(t) + FirstOccurrences(words, Keys(t))
    ensures DistinctKeys(r) && |r| >= |t|
    ensures forall i :: 0 <= i < |t| ==> r[i].0 == t[i].0
    ensures forall i :: 0 <= i < |t| ==> r[i].1 == (if t[i].0 in words then Split(t[i].0) else t[i].1)
    ensures forall i :: |t| <= i < |r| ==> r[i].0 in words && r[i].1 == Split(r[i].0)
    ensures forall w :: w in words ==> w in Keys(r)
    decreases |words|
  {
    if words == [] then t
    else
      var t' := Assign(t, words[0], Split(words[0]));
      var r := AddReserved(t', words[1..]);
      AddReservedStep(t, words, t', r);
      KeysAssign(t, words[0], Split(words[0]));
      KeysOrderStep(Keys(t), words, Keys(t'), Keys(r));
      r
  }

  lemma KeysOrderStep(kt: seq<string>, words: seq<string>, kt': seq<string>, ks: seq<string>)
    requires words != [] && kt' == if words[0] in kt then kt else kt + [words[0]]
    requires ks == kt' + FirstOccurrences(words[1..], kt')
    ensures ks == kt + FirstOccurrences(words, kt)
  {
    if words[0] !in kt {
      var rest := FirstOccurrences(words[1..], kt');
      assert FirstOccurrences(words, kt) == [words[0]] + rest;
      assert kt + [words[0]] + rest == kt + ([words[0]] + rest);
    }
  }

  lemma AddReservedStep(t: Table, words: seq<string>, t': Table, r: Table)
    requires DistinctKeys(t) && words != []
    requires t' == Assign(t, words[0], Split(words[0]))
    requires |r| >= |t'|
    requires forall i :: 0 <= i < |t'| ==> r[i].0 == t'[i].0
    requires forall i :: 0 <= i < |t'| ==> r[i].1 == (if t'[i].0 in words[1..] then Split(t'[i].0) else t'[i].1)
    requires forall i :: |t'| <= i < |r| ==> r[i].0 in words[1..] && r[i].1 == Split(r[i].0)
    requires forall w :: w in words[1..] ==> w in Keys(r)
    ensures forall i :: 0 <= i < |t| ==> r[i].0 == t[i].0
    ensures forall i :: 0 <= i < |t| ==> r[i].1 == (if t[i].0 in words then Split(t[i].0) else t[i].1)
    ensures forall i :: |t| <= i < |r| ==> r[i].0 in words && r[i].1 == Split(r[i].0)
    ensures forall w :: w in words ==> w in Keys(r)
  {
    assert forall w :: w in words[1..] ==> w in words;
    assert words == [words[0]] + words[1..];
    forall i | 0 <= i < |t|
      ensures r[i].0 == t[i].0 && r[i].1 == (if t[i].0 in words then Split(t[i].0) else t[i].1)
    {
      assert t'[i] == (if t[i].0 == words[0] then (words[0], Split(words[0])) else t[i]);
    }
    forall i | |t| <= i < |r| ensures r[i].0 in words && r[i].1 == Split(r[i].0) {
      if i < |t'| {
        assert t'[i] == (words[0], Split(words[0]));
      }
    }
    assert words[0] in Keys(r) by {
      var i :| 0 <= i < |t'| && Keys(t')[i] == words[0];
      assert Keys(r)[i] == words[0];
    }
  }

  /**
    The replacement table: the fixed entries followed by each reserved word, mapped
    to its split form, in first-occurrence order. A reserved word equal to one of the
    fixed keys takes over that key's slot (dictionary update semantics).
   */
  function ReplaceMap(reserved: seq<string>): (t: Table)
    ensures DistinctKeys(t) && |t| >= 3
    ensures t[0].0 == " " && t[1].0 == "--" && t[2].0 == "-"
    ensures t[0].1 == (if " " in reserved then Split(" ") else "\\ ")
    ensures t[1].1 == (if "--" in reserved then Split("--") else [HorizontalBar])
    ensures t[2].1 == (if "-" in reserved then Split("-") else [FigureDash])
    ensures forall i :: 3 <= i < |t| ==> t[i].0 in reserved && t[i].1 == Split(t[i].0)
    ensures forall w :: w in reserved ==> w in Keys(t)
    ensures Keys(t)[3..] == FirstOccurrences(reserved, [" ", "--", "-"])
  {
    AddReserved(BaseTable(), reserved)
  }

  /** Every entry applied in table order, each one to the result of the previous ones. */
  function ApplyTable(s: string, t: Table): string
    decreases |t|
  {
    if t == [] then s else ApplyTable(ReplaceAll(s, t[0].0, t[0].1), t[1..])
  }

  /** One step of the table, taken from the middle. */
  lemma ApplyFrom(s: string, t: Table, k: nat)
    requires k < |t|
    ensures ApplyTable(s, t[k..]) == ApplyTable(ReplaceAll(s, t[k].0, t[k].1), t[k + 1..])
  {
    assert t[k..][0] == t[k] && t[k..][1..] == t[k + 1..];
  }

  /** `Text.eval`: the literal with every table entry substituted, in order. */
  method EvalText(literal: string, table: Table) returns (text: string)
    ensures text == ApplyTable(literal, table)
  {
    text := literal;
    for i := 0 to |table|
      invariant ApplyTable(text, table[i..]) == ApplyTable(literal, table)
    {
      assert table[i..][1..] == table[i + 1..];
      text := ReplaceAll(text, table[i].0, table[i].1);
    }
    assert table[|table|..] == [];
  }

  /** The function the rest of the model uses for a text leaf's rendering. */
  function TextEval(table: Table, literal: string): string {
    ApplyTable(literal, table)
  }

  /**
    Text with no space, no dash and no reserved word is rendered as it is written.
   */
  lemma {:induction false} TextUnchanged(reserved: seq<string>, s: string)
    requires ' ' !in s && '-' !in s
    requires forall w :: w in reserved ==> w != [] && !Occurs(s, w)
    ensures TextEval(ReplaceMap(reserved), s) == s
  {
    var t := ReplaceMap(reserved);
    MissingCharAbsent(s, " ", 0);
    MissingCharAbsent(s, "--", 0);
    MissingCharAbsent(s, "-", 0);
    TableAbsent(t, s, reserved);
  }

  lemma {:induction false} TableAbsent(t: Table, s: string, reserved: seq<string>)
    requires forall i :: 0 <= i < |t| ==> t[i].0 != [] && !Occurs(s, t[i].0)
    ensures ApplyTable(s, t) == s
    decreases |t|
  {
    if t != [] {
      ReplaceAbsent(s, t[0].0, t[0].1);
      TableAbsent(t[1..], s, reserved);
    }
  }

  /**
    When no reserved word contains a dash, no dash survives: '--' and then '-' are
    replaced by dash characters, and later entries cannot reintroduce one.
   */
  lemma {:induction false} TextHasNoDash(reserved: seq<string>, s: string)
    requires forall w :: w in reserved ==> '-' !in w
    ensures '-' !in TextEval(ReplaceMap(reserved), s)
  {
    var t := ReplaceMap(reserved);
    assert "-" !in reserved;
    var s1 := ReplaceAll(s, t[0].0, t[0].1);
    var s2 := ReplaceAll(s1, t[1].0, t[1].1);
    var s3 := ReplaceAll(s2, t[2].0, t[2].1);
    ReplaceRemovesChar(s2, '-', [FigureDash]);
    assert t[0..] == t;
    ApplyFrom(s, t, 0);
    ApplyFrom(s1, t, 1);
    ApplyFrom(s2, t, 2);
    TailKeepsOut(t[3..], s3, reserved);
  }

  lemma {:induction false} TailKeepsOut(t: Table, s: string, reserved: seq<string>)
    requires '-' !in s
    requires forall i :: 0 <= i < |t| ==> t[i].0 in reserved && t[i].1 == Split(t[i].0)
    requires forall w :: w in reserved ==> '-' !in w
    ensures '-' !in ApplyTable(s, t)
    decreases |t|
  {
    if t != [] {
      assert '-' !in t[0].1;
      ReplaceKeepsOut(s, t[0].0, t[0].1, '-');
      TailKeepsOut(t[1..], ReplaceAll(s, t[0].0, t[0].1), reserved);
    }
  }

  /** A single reserved word that is not one of the fixed keys gets one slot after them. */
  lemma ReplaceMapSingle(w: string)
    requires w != " " && w != "--" && w != "-"
    ensures ReplaceMap([w]) == BaseTable() + [(w, Split(w))]
  {
    var base := BaseTable();
    assert w !in Keys(base);
    assert [w][1..] == [];
    var t' := Assign(base, w, Split(w));
    assert t' == base + [(w, Split(w))];
    assert AddReserved(base, [w]) == AddReserved(t', []);
  }

  /** A reserved word on its own (without space or dash) renders as its split form. */
  lemma ReservedWordIsSplit(w: string)
    requires w != [] && ' ' !in w && '-' !in w
    ensures TextEval(ReplaceMap([w]), w) == Split(w)
  {
    assert ' ' in " " && '-' in "-" && '-' in "--";
    ReplaceMapSingle(w);
    var t := ReplaceMap([w]);
    MissingCharAbsent(w, " ", 0);
    MissingCharAbsent(w, "--", 0);
    MissingCharAbsent(w, "-", 0);
    ReplaceAbsent(w, " ", t[0].1);
    ReplaceAbsent(w, "--", t[1].1);
    ReplaceAbsent(w, "-", t[2].1);
    assert w[..|w|] == w && w[|w|..] == [];
    assert ReplaceAll(w, w, Split(w)) == Split(w) + ReplaceAll([], w, Split(w));
    assert t[0..] == t && t[4..] == [];
    ApplyFrom(w, t, 0);
    ApplyFrom(w, t, 1);
    ApplyFrom(w, t, 2);
    ApplyFrom(w, t, 3);
  }

  /** The two-character dash is replaced before the one-character dash can split it. */
  lemma DoubleDashFirst()
    ensures TextEval(ReplaceMap([]), "--") == [HorizontalBar]
  {
    var t := ReplaceMap([]);
    assert t == BaseTable();
    MissingCharAbsent("--", " ", 0);
    ReplaceAbsent("--", " ", "\\ ");
    assert StartsWith("--", "--");
    assert ReplaceAll("--", "--", [HorizontalBar]) == [HorizontalBar] + ReplaceAll([], "--", [HorizontalBar]);
    MissingCharAbsent([HorizontalBar], "-", 0);
    ReplaceAbsent([HorizontalBar], "-", [FigureDash]);
    assert t[0..] == t && t[3..] == [];
    ApplyFrom("--", t, 0);
    ApplyFrom("--", t, 1);
    ApplyFrom([HorizontalBar], t, 2);
  }

  /**
    The table order decides the output when one reserved word contains another: with
    `sin` listed before `sinh`, `sin` is split first, and `sinh` no longer occurs.
   */
  lemma ShorterWordFirst()
    ensures Keys(ReplaceMap(["sin", "sinh"]))[3..] == ["sin", "sinh"]
    ensures TextEval(ReplaceMap(["sin", "sinh"]), "sinh") == Split("sin") + "h"
  {
    TwoWordTable();
    SinhThroughTable(ReplaceMap(["sin", "sinh"]));
  }

  lemma SinhThroughTable(t: Table)
    requires t == BaseTable() + [("sin", Split("sin"))] + [("sinh", Split("sinh"))]
    ensures Keys(t)[3..] == ["sin", "sinh"]
    ensures ApplyTable("sinh", t) == Split("sin") + "h"
  {
    var head := BaseTable();
    var tail := [("sin", Split("sin")), ("sinh", Split("sinh"))];
    assert t == head + tail;
    assert Keys(t)[3..] == Keys(tail);
    FixedThenRest("sinh", head, tail);
    TwoEntries("sinh", tail[0], tail[1]);
    assert tail == [tail[0], tail[1]];
    var x := SplitThenRest();
  }

  /** A table of two entries applies the first, then the second. */
  lemma TwoEntries(s: string, e1: (string, string), e2: (string, string))
    ensures ApplyTable(s, [e1, e2]) == ReplaceAll(ReplaceAll(s, e1.0, e1.1), e2.0, e2.1)
  {
    var r1 := ReplaceAll(s, e1.0, e1.1);
    assert [e1, e2][1..] == [e2] && [e2][1..] == [];
    assert ApplyTable(s, [e1, e2]) == ApplyTable(r1, [e2]);
    assert ApplyTable(r1, [e2]) == ApplyTable(ReplaceAll(r1, e2.0, e2.1), []);
  }

  /** A word without space or dash passes the fixed entries untouched. */
  lemma FixedThenRest(w: string, head: Table, tail: Table)
    requires ' ' !in w && '-' !in w && |head| == 3
    requires head[0].0 == " " && head[1].0 == "--" && head[2].0 == "-"
    ensures ApplyTable(w, head + tail) == ApplyTable(w, tail)
  {
    ApplyConcat(w, head, tail);
    FixedEntriesKeep(w, head);
    assert head[..3] == head;
  }

  /** The table for the reserved words `sin` then `sinh`. */
  lemma TwoWordTable()
    ensures ReplaceMap(["sin", "sinh"]) == BaseTable() + [("sin", Split("sin"))] + [("sinh", Split("sinh"))]
  {
    NewKeys();
    AddTwo(BaseTable(), "sin", "sinh");
  }

  lemma NewKeys()
    ensures "sin" !in Keys(BaseTable())
    ensures "sinh" !in Keys(BaseTable()) + ["sin"]
  {
  }

  /** Reserving two words the table does not hold yet appends both entries in order. */
  lemma AddTwo(t: Table, u: string, w: string)
    requires DistinctKeys(t) && u !in Keys(t) && w !in Keys(t) + [u]
    ensures AddReserved(t, [u, w]) == t + [(u, Split(u))] + [(w, Split(w))]
  {
    var t1 := t + [(u, Split(u))];
    assert AddReserved(t, [u, w]) == AddReserved(t1, [w]) by {
      assert [u, w] == [u] + [w];
      AddNew(t, u, [w]);
    }
    KeysSnoc(t, u, Split(u));
    AddOne(t1, w);
  }

  lemma KeysSnoc(t: Table, k: string, v: string)
    ensures Keys(t + [(k, v)]) == Keys(t) + [k]
  {
  }

  lemma AddOne(t: Table, w: string)
    requires DistinctKeys(t) && w !in Keys(t)
    ensures AddReserved(t, [w]) == t + [(w, Split(w))]
  {
    assert [w] == [w] + [];
    AddNew(t, w, []);
  }

  lemma AssignNew(t: Table, k: string, v: string)
    requires k !in Keys(t)
    ensures Assign(t, k, v) == t + [(k, v)]
  {
  }

  /** Reserving a word the table does not hold yet appends its entry, then goes on. */
  lemma AddNew(t: Table, w: string, rest: seq<string>)
    requires DistinctKeys(t) && w !in Keys(t)
    ensures DistinctKeys(t + [(w, Split(w))])
    ensures AddReserved(t, [w] + rest) == AddReserved(t + [(w, Split(w))], rest)
  {
    assert ([w] + rest)[0] == w && ([w] + rest)[1..] == rest;
    AssignNew(t, w, Split(w));
  }

  /** The fixed entries leave a word without space or dash as it is. */
  lemma FixedEntriesKeep(w: string, t: Table)
    requires ' ' !in w && '-' !in w && |t| >= 3
    requires t[0].0 == " " && t[1].0 == "--" && t[2].0 == "-"
    ensures ApplyTable(w, t[..3]) == w
  {
    MissingCharAbsent(w, " ", 0);
    MissingCharAbsent(w, "--", 0);
    MissingCharAbsent(w, "-", 0);
    TableAbsent(t[..3], w, []);
  }

  /** Applying two tables one after the other is applying their concatenation. */
  lemma {:induction false} ApplyConcat(s: string, t1: Table, t2: Table)
    ensures ApplyTable(s, t1 + t2) == ApplyTable(ApplyTable(s, t1), t2)
    decreases |t1|
  {
    if t1 != [] {
      assert (t1 + t2)[1..] == t1[1..] + t2;
      ApplyConcat(ReplaceAll(s, t1[0].0, t1[0].1), t1[1..], t2);
    } else {
      assert t1 + t2 == t2;
    }
  }

  /** `sinh` with `sin` split, and `sinh` absent from the result. */
  lemma SplitThenRest() returns (x: string)
    ensures x == Split("sin") + "h"
    ensures ReplaceAll("sinh", "sin", Split("sin")) == x
    ensures ReplaceAll(x, "sinh", Split("sinh")) == x
  {
    x := Split("sin") + "h";
    var w := "sinh";
    assert w[..3] == "sin" && w[3..] == "h";
    ShortAbsent("h", "sin");
    ReplaceAbsent("h", "sin", Split("sin"));
    assert ReplaceAll(w, "sin", Split("sin")) == Split("sin") + ReplaceAll("h", "sin", Split("sin"));
    assert x == ['s', ZWNJ, 'i', 'n', 'h'];
    assert !Occurs(x, "sinh") by {
      forall k | 0 <= k <= |x| ensures !StartsWith(x[k..], "sinh") {
        if k == 0 {
          assert x[k..][1] == ZWNJ;
        } else if k == 1 {
          assert x[k..][0] == ZWNJ;
        }
      }
    }
    ReplaceAbsent(x, "sinh", Split("sinh"));
  }
}
