/**
 * Logpoint templates. A match is what the pattern `\{[^\}]*\}` finds: a `{`,
 * then any text without `}`, then `}`. Rendering replaces each match,
 * leftmost first, by a substitution of the enclosed text and copies the rest.
 */
module Template {
  import opened Evaluation

  /** `t[i..j+1]` is a match of `\{[^\}]*\}`. */
  predicate IsMatch(t: string, i: nat, j: nat) {
    i < j < |t| && t[i] == '{' && t[j] == '}' && '}' !in t[i + 1..j]
  }

  /** The template holds at least one match. */
  ghost predicate HasMatch(t: string) {
    exists i: nat, j: nat :: IsMatch(t, i, j)
  }

  /** Result of one search: nothing, or the positions of the `{` and the `}` of a match. */
  datatype Search = NotFound | Found(open: nat, close: nat)

  /** Position of the first `c` at or after `from`, or `|t|` when there is none (IndexOfFound). */
  function IndexOf(t: string, c: char, from: nat): (k: nat)
    requires from <= |t|
    ensures from <= k <= |t|
    decreases |t| - from
  {
    if from == |t| then |t|
    else if t[from] == c then from
    else IndexOf(t, c, from + 1)
  }

  lemma {:induction false} IndexOfFound(t: string, c: char, from: nat)
    requires from <= |t|
    ensures c !in t[from..IndexOf(t, c, from)]
    ensures IndexOf(t, c, from) < |t| ==> t[IndexOf(t, c, from)] == c
    decreases |t| - from
  {
    if from == |t| || t[from] == c {
      assert t[from..from] == [];
    } else {
      IndexOfFound(t, c, from + 1);
      var k := IndexOf(t, c, from + 1);
      assert t[from..k] == [t[from]] + t[from + 1..k];
    }
  }

  /**
   * What `std::regex_search` reports: the leftmost match, which runs from the
   * first `{` to the first `}` after it (FirstMatchFound), or nothing when
   * there is no match (FirstMatchNone).
   */
  function FirstMatch(t: string): (r: Search)
    ensures r.Found? ==> r.open < r.close < |t|
  {
    var i := IndexOf(t, '{', 0);
    if i == |t| then NotFound
    else
      var j := IndexOf(t, '}', i + 1);
      if j == |t| then NotFound else Found(i, j)
  }

  /** The match found is a match, and it starts at the first `{` of the template. */
  lemma FirstMatchFound(t: string)
    ensures FirstMatch(t).Found? ==> IsMatch(t, FirstMatch(t).open, FirstMatch(t).close)
    ensures FirstMatch(t).Found? ==> '{' !in t[..FirstMatch(t).open]
  {
    IndexOfFound(t, '{', 0);
    var i := IndexOf(t, '{', 0);
    assert t[0..i] == t[..i];
    if i < |t| {
      IndexOfFound(t, '}', i + 1);
    }
  }

  /** FirstMatch finds nothing exactly when the template holds no match. */
  lemma FirstMatchNone(t: string)
    ensures FirstMatch(t).NotFound? <==> !HasMatch(t)
  {
    FirstMatchFound(t);
    if FirstMatch(t).NotFound? && HasMatch(t) {
      var i: nat, j: nat :| IsMatch(t, i, j);
      IndexOfFound(t, '{', 0);
      var f := IndexOf(t, '{', 0);
      assert t[0..f] == t[..f];
      IndexOfFound(t, '}', f + 1);
    }
  }

  /** A match that starts at the first `{` is the one FirstMatch finds. */
  lemma FirstMatchIsLeftmost(t: string, i: nat, j: nat)
    requires IsMatch(t, i, j) && '{' !in t[..i]
    ensures FirstMatch(t) == Found(i, j)
  {
    FirstMatchNone(t);
    FirstMatchFound(t);
  }

  /** Rendering: text before each match copied, each match replaced by `hole` of its inner text. */
  function Render(hole: string -> string, t: string): string
    decreases |t|
  {
    var m := FirstMatch(t);
    if m.NotFound? then t
    else t[..m.open] + hole(t[m.open + 1..m.close]) + Render(hole, t[m.close + 1..])
  }

  /** One step of rendering: the first match and the rest of the template after it. */
  lemma RenderStep(hole: string -> string, t: string, i: nat, j: nat)
    requires FirstMatch(t) == Found(i, j)
    ensures Render(hole, t) == t[..i] + hole(t[i + 1..j]) + Render(hole, t[j + 1..])
  {
  }

  lemma Regroup(a: string, b: string, c: string, d: string)
    ensures a + b + c + d == a + (b + c + d)
  {
  }

  /** RenderStep on a suffix of the template, with positions counted in the whole template. */
  lemma RenderSuffixStep(hole: string -> string, log: string, it: nat, i: nat, j: nat)
    requires it <= |log| && FirstMatch(log[it..]) == Found(i, j)
    ensures it + j < |log|
    ensures Render(hole, log[it..])
            == log[it..it + i] + hole(log[it + i + 1..it + j]) + Render(hole, log[it + j + 1..])
  {
    var rest := log[it..];
    RenderStep(hole, rest, i, j);
    assert rest[..i] == log[it..it + i];
    assert rest[i + 1..j] == log[it + i + 1..it + j];
    assert rest[j + 1..] == log[it + j + 1..];
  }

  /** A template without a match renders unchanged, whatever the substitution. */
  lemma RenderWithoutMatch(hole: string -> string, t: string)
    requires !HasMatch(t)
    ensures Render(hole, t) == t
  {
    FirstMatchNone(t);
  }

  /** A `{` that no `}` follows stays literal: a template without any `}` renders unchanged. */
  lemma RenderUnclosed(hole: string -> string, t: string)
    requires '}' !in t
    ensures Render(hole, t) == t
  {
    FirstMatchFound(t);
  }

  /** Literal text without `{` in front of a template shifts its first match and nothing else. */
  lemma FirstMatchAfterLiteral(p: string, t: string)
    requires '{' !in p
    ensures FirstMatch(p + t) == if FirstMatch(t).NotFound? then NotFound
                                 else Found(FirstMatch(t).open + |p|, FirstMatch(t).close + |p|)
  {
    var pt := p + t;
    FirstMatchNone(t);
    FirstMatchNone(pt);
    FirstMatchFound(t);
    if FirstMatch(t).NotFound? {
      if HasMatch(pt) {
        var i: nat, j: nat :| IsMatch(pt, i, j);
        assert pt[i + 1..j] == t[i - |p| + 1..j - |p|];
        assert IsMatch(t, i - |p|, j - |p|);
      }
    } else {
      var i, j := FirstMatch(t).open, FirstMatch(t).close;
      assert pt[..i + |p|] == p + t[..i];
      assert pt[i + |p| + 1..j + |p|] == t[i + 1..j];
      FirstMatchIsLeftmost(pt, i + |p|, j + |p|);
    }
  }

  /** Literal text without `{` in front of a template is copied verbatim. */
  lemma RenderLiteralPrefix(hole: string -> string, p: string, t: string)
    requires '{' !in p
    ensures Render(hole, p + t) == p + Render(hole, t)
  {
    var pt := p + t;
    FirstMatchAfterLiteral(p, t);
    if FirstMatch(t).Found? {
      var i, j := FirstMatch(t).open, FirstMatch(t).close;
      var i', j' := i + |p|, j + |p|;
      assert pt[..i'] == p + t[..i];
      assert pt[i' + 1..j'] == t[i + 1..j];
      assert pt[j' + 1..] == t[j + 1..];
      RenderStep(hole, pt, i', j');
      RenderStep(hole, t, i, j);
      Regroup(p, t[..i], hole(t[i + 1..j]), Render(hole, t[j + 1..]));
    }
  }

  /** A `{`, an expression without `}`, and a `}` become the substitution of the expression. */
  lemma RenderHole(hole: string -> string, e: string, rest: string)
    requires '}' !in e
    ensures Render(hole, "{" + e + "}" + rest) == hole(e) + Render(hole, rest)
  {
    var t := "{" + e + "}" + rest;
    assert t[1..|e| + 1] == e;
    assert t[..0] == [];
    FirstMatchIsLeftmost(t, 0, |e| + 1);
    RenderStep(hole, t, 0, |e| + 1);
    assert t[|e| + 2..] == rest;
  }

  /** Substituting each match by itself gives back the template: nothing outside matches is lost or moved. */
  lemma {:induction false} RenderIdentity(t: string)
    ensures Render(e => "{" + e + "}", t) == t
    decreases |t|
  {
    FirstMatchFound(t);
    var m := FirstMatch(t);
    if m.Found? {
      var i, j := m.open, m.close;
      RenderIdentity(t[j + 1..]);
      RenderStep(e => "{" + e + "}", t, i, j);
      assert t == t[..i] + ("{" + t[i + 1..j] + "}") + t[j + 1..];
    }
  }

  /** One turn of the loop in `evaluate_log`: the text before the match and its value join the output. */
  lemma LogStep(hole: string -> string, log: string, total: string,
                it: nat, i: nat, j: nat, value: string, res: string, res': string, it': nat)
    requires it <= |log| && FirstMatch(log[it..]) == Found(i, j)
    requires res + Render(hole, log[it..]) == total
    requires value == hole(log[it + i + 1..it + j])
    requires res' == res + log[it..it + i] + value && it' == it + j + 1
    ensures it' <= |log| && res' + Render(hole, log[it'..]) == total
  {
    RenderSuffixStep(hole, log, it, i, j);
    Regroup(res, log[it..it + i], value, Render(hole, log[it + j + 1..]));
  }

  /**
   * `evaluate_log`: the loop of successive `regex_search` calls, each match
   * replaced by the stringified value of its inner text.
   */
  method EvaluateLog(eval: Evaluator, log: string) returns (res: string)
    ensures res == Render(Stringify(eval), log)
  {
    ghost var hole := Stringify(eval);
    ghost var total := Render(hole, log);
    res := "";
    var it := 0;
    assert log[it..] == log;
    var m := FirstMatch(log[it..]);
    while m.Found?
      invariant 0 <= it <= |log|
      invariant m == FirstMatch(log[it..])
      invariant res + Render(hole, log[it..]) == total
      decreases |log| - it
    {
      var i, j := m.open, m.close;
      var value := GetStr(eval, log[it + i + 1..it + j]);
      ghost var res0, it0 := res, it;
      res := res + log[it..it + i] + value;
      it := it + j + 1;
      LogStep(hole, log, total, it0, i, j, value, res0, res, it);
      m := FirstMatch(log[it..]);
    }
    res := res + log[it..];
  }
}
