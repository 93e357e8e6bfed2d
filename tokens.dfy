/**
 * The value-group pattern of DSMRObjectParser._parse, written as a scanner:
 * re.findall of ((?<=\()[0-9a-zA-Z\.\*]{0,}(?=\)))+ on one telegram line.
 *
 * A match starts right after a '(' and takes the longest run of token
 * characters, which must be followed by ')'. Since neither '(' nor ')' is a
 * token character, each '(' yields at most one match and matches never
 * overlap, so findall returns one token per such group, left to right.
 */
module Tokens {
  import opened Wrappers

  /** The character class [0-9a-zA-Z.*] a value group may hold. */
  predicate IsTokenChar(c: char) {
    ('0' <= c <= '9') || ('a' <= c <= 'z') || ('A' <= c <= 'Z') || c == '.' || c == '*'
  }

  predicate IsTokenText(s: string) {
    forall m :: 0 <= m < |s| ==> IsTokenChar(s[m])
  }

  /** A parenthesised group, by the positions of its '(' and its ')'. */
  datatype Group = Group(open: nat, close: nat)

  /** line[open..close+1] is '(' token characters ')'. */
  predicate IsValueGroup(line: string, open: int, close: int) {
    && 0 <= open < close < |line|
    && line[open] == '('
    && line[close] == ')'
    && forall m :: open < m < close ==> IsTokenChar(line[m])
  }

  /** End of the longest run of token characters starting at k (the greedy {0,}). */
  function RunEnd(line: string, k: nat): (j: nat)
    requires k <= |line|
    ensures k <= j <= |line|
    ensures forall m :: k <= m < j ==> IsTokenChar(line[m])
    ensures j < |line| ==> !IsTokenChar(line[j])
    decreases |line| - k
  {
    if k < |line| && IsTokenChar(line[k]) then RunEnd(line, k + 1) else k
  }

  /**
   * The groups whose '(' lies at or after k, in the order findall reports
   * them. Each one is a value group; GroupsFromOrdered and GroupsFromComplete
   * show that they come strictly left to right and that none is missed.
   */
  function GroupsFrom(line: string, k: nat): (gs: seq<Group>)
    requires k <= |line|
    ensures forall n :: 0 <= n < |gs| ==> k <= gs[n].open && IsValueGroup(line, gs[n].open, gs[n].close)
    ensures WithinLine(line, gs)
    decreases |line| - k
  {
    if k == |line| then []
    else if line[k] == '(' && RunEnd(line, k + 1) < |line| && line[RunEnd(line, k + 1)] == ')' then
      [Group(k, RunEnd(line, k + 1))] + GroupsFrom(line, k + 1)
    else
      GroupsFrom(line, k + 1)
  }

  /** A value group's ')' is the end of the token run after its '(': each '(' closes at most one group. */
  lemma ValueGroupCloses(line: string, i: nat, j: nat)
    requires IsValueGroup(line, i, j)
    ensures RunEnd(line, i + 1) == j
  {
  }

  /** No '(' lies inside a value group or on its ')'. */
  lemma NoOpenInsideGroup(line: string, i: nat, j: nat, o: nat)
    requires IsValueGroup(line, i, j) && i < o <= j
    ensures line[o] != '('
  {
    if o < j {
      assert IsTokenChar(line[o]);
    }
  }

  /** Each group ends before the next one opens. */
  predicate LeftToRight(gs: seq<Group>) {
    forall a, b :: 0 <= a < b < |gs| ==> gs[a].close < gs[b].open
  }

  /** The groups come strictly left to right and do not overlap. */
  lemma {:induction false} GroupsFromOrdered(line: string, k: nat)
    requires k <= |line|
    ensures LeftToRight(GroupsFrom(line, k))
    decreases |line| - k
  {
    if k < |line| {
      GroupsFromOrdered(line, k + 1);
      var gs := GroupsFrom(line, k);
      var rest := GroupsFrom(line, k + 1);
      var j := RunEnd(line, k + 1);
      if line[k] == '(' && j < |line| && line[j] == ')' {
        assert gs == [Group(k, j)] + rest;
        forall n | 0 <= n < |rest| ensures j < rest[n].open {
          if rest[n].open <= j {
            NoOpenInsideGroup(line, k, j, rest[n].open);
          }
        }
        forall a, b | 0 <= a < b < |gs| ensures gs[a].close < gs[b].open {
          assert gs[b] == rest[b - 1];
          if a > 0 {
            assert gs[a] == rest[a - 1];
            assert rest[a - 1].close < rest[b - 1].open;
          }
        }
      }
    }
  }

  /** Every value group whose '(' lies at or after k is reported. */
  lemma {:induction false} GroupsFromComplete(line: string, k: nat, i: nat, j: nat)
    requires k <= i && IsValueGroup(line, i, j)
    ensures Group(i, j) in GroupsFrom(line, k)
    decreases |line| - k
  {
    if k == i {
      ValueGroupCloses(line, i, j);
    } else {
      GroupsFromComplete(line, k + 1, i, j);
    }
  }

  /** Every group lies inside the line. */
  predicate WithinLine(line: string, gs: seq<Group>) {
    forall n :: 0 <= n < |gs| ==> gs[n].open < gs[n].close < |line|
  }

  /** The text between the parentheses of each group. */
  function Texts(line: string, gs: seq<Group>): (ts: seq<string>)
    requires WithinLine(line, gs)
    ensures |ts| == |gs|
  {
    if gs == [] then [] else [line[gs[0].open + 1 .. gs[0].close]] + Texts(line, gs[1..])
  }

  /** re.findall(pattern, line): the contents of the value groups, left to right. */
  function Tokens(line: string): (ts: seq<string>)
    ensures |ts| == |GroupsFrom(line, 0)|
    ensures forall n :: 0 <= n < |ts| ==> ts[n] == line[GroupsFrom(line, 0)[n].open + 1 .. GroupsFrom(line, 0)[n].close]
    ensures forall n :: 0 <= n < |ts| ==> IsTokenText(ts[n])
  {
    var gs := GroupsFrom(line, 0);
    TextsAreTokenText(line, gs);
    TextsAt(line, gs);
    Texts(line, gs)
  }

  /** Each text is the slice strictly between its group's parentheses. */
  lemma {:induction false} TextsAt(line: string, gs: seq<Group>)
    requires WithinLine(line, gs)
    ensures forall n :: 0 <= n < |gs| ==> Texts(line, gs)[n] == line[gs[n].open + 1 .. gs[n].close]
    decreases |gs|
  {
    if gs != [] {
      TextsAt(line, gs[1..]);
      var ts := Texts(line, gs);
      assert ts == [line[gs[0].open + 1 .. gs[0].close]] + Texts(line, gs[1..]);
      forall n | 0 < n < |gs| ensures ts[n] == line[gs[n].open + 1 .. gs[n].close] {
        assert ts[n] == Texts(line, gs[1..])[n - 1] && gs[n] == gs[1..][n - 1];
      }
    }
  }

  lemma {:induction false} TextsAreTokenText(line: string, gs: seq<Group>)
    requires forall n :: 0 <= n < |gs| ==> IsValueGroup(line, gs[n].open, gs[n].close)
    requires WithinLine(line, gs)
    ensures forall n :: 0 <= n < |gs| ==> IsTokenText(Texts(line, gs)[n])
    decreases |gs|
  {
    if gs != [] {
      TextsAreTokenText(line, gs[1..]);
      var ts := Texts(line, gs);
      assert ts == [line[gs[0].open + 1 .. gs[0].close]] + Texts(line, gs[1..]);
      forall n | 0 <= n < |gs| ensures IsTokenText(ts[n]) {
        if n > 0 {
          assert ts[n] == Texts(line, gs[1..])[n - 1];
        }
      }
    }
  }

  /** The token list with each empty group replaced by None (line 100). */
  function ValueTokens(line: string): (vs: seq<Option<string>>)
    ensures |vs| == |Tokens(line)|
    ensures forall n :: 0 <= n < |vs| ==> vs[n] == if Tokens(line)[n] == [] then None else Some(Tokens(line)[n])
  {
    var ts := Tokens(line);
    seq(|ts|, n requires 0 <= n < |ts| => if ts[n] == [] then None else Some(ts[n]))
  }

  /** A line as a meter writes it: an identifier followed by "(" token ")" groups. */
  function Render(toks: seq<string>): string {
    if toks == [] then [] else "(" + toks[0] + ")" + Render(toks[1..])
  }

  /** Scanning skips over a stretch without '('. */
  lemma {:induction false} GroupsFromSkip(line: string, k: nat, k': nat)
    requires k <= k' <= |line|
    requires forall m :: k <= m < k' ==> line[m] != '('
    ensures GroupsFrom(line, k) == GroupsFrom(line, k')
    decreases k' - k
  {
    if k < k' {
      GroupsFromSkip(line, k + 1, k');
    }
  }

  /** What a rendered group at position k says about the characters of the line. */
  lemma RenderedGroupAt(line: string, k: nat, t: string, rest: string)
    requires k <= |line| && line[k..] == "(" + t + ")" + rest
    requires IsTokenText(t)
    ensures k + 1 + |t| < |line|
    ensures IsValueGroup(line, k, k + 1 + |t|)
    ensures line[k + 1 .. k + 1 + |t|] == t
    ensures line[k + 2 + |t| ..] == rest
  {
    var u := line[k..];
    assert |u| == |t| + 2 + |rest|;
    assert forall m :: 0 <= m < |t| ==> line[k + 1 + m] == u[1 + m] == t[m];
    assert line[k] == u[0] == '(';
    assert line[k + 1 + |t|] == u[1 + |t|] == ')';
    assert line[k + 2 + |t| ..] == u[2 + |t| ..];
  }

  lemma TextsCons(line: string, g: Group, gs: seq<Group>)
    requires g.open < g.close < |line| && WithinLine(line, gs)
    ensures WithinLine(line, [g] + gs)
    ensures Texts(line, [g] + gs) == [line[g.open + 1 .. g.close]] + Texts(line, gs)
  {
    assert ([g] + gs)[1..] == gs;
    assert forall n :: 0 < n < |gs| + 1 ==> ([g] + gs)[n] == gs[n - 1];
  }

  /** Scanning from the '(' of a value group reports it and resumes after its ')'. */
  lemma GroupsFromGroupAt(line: string, k: nat, e: nat)
    requires IsValueGroup(line, k, e)
    ensures GroupsFrom(line, k) == [Group(k, e)] + GroupsFrom(line, e + 1)
  {
    ValueGroupCloses(line, k, e);
    forall m | k + 1 <= m < e + 1 ensures line[m] != '(' {
      NoOpenInsideGroup(line, k, e, m);
    }
    GroupsFromSkip(line, k + 1, e + 1);
  }

  lemma TextsAtGroup(line: string, k: nat, e: nat)
    requires IsValueGroup(line, k, e)
    ensures Texts(line, GroupsFrom(line, k)) == [line[k + 1 .. e]] + Texts(line, GroupsFrom(line, e + 1))
  {
    var rest := GroupsFrom(line, e + 1);
    calc {
      Texts(line, GroupsFrom(line, k));
      { GroupsFromGroupAt(line, k, e); }
      Texts(line, [Group(k, e)] + rest);
      { TextsCons(line, Group(k, e), rest); }
      [line[k + 1 .. e]] + Texts(line, rest);
    }
  }

  /** Every token is token text (stated by recursion, which keeps the proofs below cheap). */
  predicate AllTokenText(toks: seq<string>) {
    toks == [] || (IsTokenText(toks[0]) && AllTokenText(toks[1..]))
  }

  lemma {:induction false} AllTokenTextAt(toks: seq<string>)
    requires forall n :: 0 <= n < |toks| ==> IsTokenText(toks[n])
    ensures AllTokenText(toks)
  {
    if toks != [] {
      assert forall n :: 0 <= n < |toks| - 1 ==> toks[1..][n] == toks[n + 1];
      AllTokenTextAt(toks[1..]);
    }
  }

  /** From k on, the line consists of exactly the groups "(" toks[n] ")", stated by positions. */
  predicate GroupsAt(line: string, k: nat, toks: seq<string>)
    decreases toks
  {
    && k <= |line|
    && if toks == [] then k == |line|
       else
         var e := k + 1 + |toks[0]|;
         && IsValueGroup(line, k, e)
         && line[k + 1 .. e] == toks[0]
         && GroupsAt(line, e + 1, toks[1..])
  }

  lemma GroupsAtCons(line: string, k: nat, t: string, toks: seq<string>)
    requires IsValueGroup(line, k, k + 1 + |t|) && line[k + 1 .. k + 1 + |t|] == t
    requires GroupsAt(line, k + 2 + |t|, toks)
    ensures GroupsAt(line, k, [t] + toks)
  {
    assert ([t] + toks)[0] == t && ([t] + toks)[1..] == toks;
  }

  lemma {:induction false} RenderedGroupsAt(line: string, k: nat, toks: seq<string>)
    requires k <= |line| && line[k..] == Render(toks)
    requires AllTokenText(toks)
    ensures GroupsAt(line, k, toks)
    decreases toks
  {
    if toks != [] {
      var t := toks[0];
      var rest := toks[1..];
      assert line[k..] == "(" + t + ")" + Render(rest);
      RenderedGroupAt(line, k, t, Render(rest));
      RenderedGroupsAt(line, k + 2 + |t|, rest);
      GroupsAtCons(line, k, t, rest);
      assert toks == [t] + rest;
    }
  }

  lemma {:induction false} TokensFromGroupsAt(line: string, k: nat, toks: seq<string>)
    requires GroupsAt(line, k, toks)
    ensures Texts(line, GroupsFrom(line, k)) == toks
    decreases toks
  {
    if toks != [] {
      var e := k + 1 + |toks[0]|;
      TokensFromGroupsAt(line, e + 1, toks[1..]);
      TextsAtGroup(line, k, e);
      assert toks == [toks[0]] + toks[1..];
    }
  }

  /** Round trip: the tokens of a rendered line are the tokens it was rendered from. */
  lemma {:induction false} TokensOfRendered(id: string, toks: seq<string>)
    requires '(' !in id
    requires forall n :: 0 <= n < |toks| ==> IsTokenText(toks[n])
    ensures Tokens(id + Render(toks)) == toks
  {
    var line := id + Render(toks);
    assert line[|id|..] == Render(toks);
    assert forall m :: 0 <= m < |id| ==> line[m] == id[m];
    GroupsFromSkip(line, 0, |id|);
    AllTokenTextAt(toks);
    RenderedGroupsAt(line, |id|, toks);
    TokensFromGroupsAt(line, |id|, toks);
  }

  /** A group holding any character outside [0-9a-zA-Z.*] yields no token. */
  /** A line without '(' has no value groups. */
  lemma NoOpenNoTokens(line: string)
    requires '(' !in line
    ensures Tokens(line) == [] && ValueTokens(line) == []
  {
  }

  lemma ForeignCharacterYieldsNoToken(line: string, open: nat, close: nat, m: nat)
    requires open < m < close < |line| && !IsTokenChar(line[m])
    ensures Group(open, close) !in GroupsFrom(line, 0)
  {
  }

  /** A value and a unit, both token text, joined by '*' are token text. */
  lemma UnitTokenText(value: string, unit: string)
    requires IsTokenText(value) && IsTokenText(unit)
    ensures IsTokenText(value + "*" + unit) && value + "*" + unit != []
  {
    var token := value + "*" + unit;
    forall m | 0 <= m < |token| ensures IsTokenChar(token[m]) {
      if m < |value| { assert token[m] == value[m]; }
      else if m > |value| { assert token[m] == unit[m - |value| - 1]; }
    }
  }

  /** The value tokens of an identifier followed by one group. */
  lemma OneGroupLine(id: string, t: string)
    requires '(' !in id && IsTokenText(t)
    ensures ValueTokens(id + "(" + t + ")") == [if t == [] then None else Some(t)]
  {
    assert Render([t]) == "(" + t + ")" + Render([]);
    assert id + "(" + t + ")" == id + Render([t]);
    TokensOfRendered(id, [t]);
  }

  /** The value tokens of an identifier followed by two groups. */
  lemma TwoGroupLine(id: string, t1: string, t2: string)
    requires '(' !in id && IsTokenText(t1) && IsTokenText(t2)
    ensures ValueTokens(id + "(" + t1 + ")(" + t2 + ")")
         == [if t1 == [] then None else Some(t1), if t2 == [] then None else Some(t2)]
  {
    assert [t1, t2][1..] == [t2];
    assert Render([t2]) == "(" + t2 + ")" + Render([]);
    assert Render([t1, t2]) == "(" + t1 + ")" + Render([t2]);
    assert id + "(" + t1 + ")(" + t2 + ")" == id + Render([t1, t2]);
    TokensOfRendered(id, [t1, t2]);
  }
}
