/**
 * The interpolation test of the template compiler: the regular expression
 * `/\{\{(.*)\}\}/` (unanchored, greedy, `.` matching anything but a line
 * terminator), the first group it captures, and `String.prototype.trim`
 * applied to that group.
 */
module Interpolation {
  import opened Wrappers

  /** The ECMAScript LineTerminator characters; `.` matches none of them. */
  predicate IsLineTerminator(c: char) {
    c == '\n' || c == '\r' || c == '\U{2028}' || c == '\U{2029}'
  }

  /**
   * The characters `trim` removes: the ECMAScript WhiteSpace set (tab,
   * vertical tab, form feed, space, no-break space, byte order mark and the
   * space separators of the Zs category) and the line terminators.
   */
  predicate IsWhitespace(c: char) {
    IsLineTerminator(c)
    || c == '\t' || c == '\U{000B}' || c == '\U{000C}' || c == ' '
    || c == '\U{00A0}' || c == '\U{FEFF}' || c == '\U{1680}'
    || ('\U{2000}' <= c <= '\U{200A}')
    || c == '\U{202F}' || c == '\U{205F}' || c == '\U{3000}'
  }

  predicate AllWhitespace(s: string) {
    forall i :: 0 <= i < |s| ==> IsWhitespace(s[i])
  }

  predicate SingleLine(s: string) {
    forall i :: 0 <= i < |s| ==> !IsLineTerminator(s[i])
  }

  /** Neither end of `s` is whitespace. */
  predicate Trimmed(s: string) {
    s == [] || (!IsWhitespace(s[0]) && !IsWhitespace(s[|s| - 1]))
  }

  // ---------------------------------------------------------------- trim

  /** Number of whitespace characters `s` starts with. */
  function Lead(s: string): (n: nat)
    ensures n <= |s|
    ensures AllWhitespace(s[..n])
    ensures n < |s| ==> !IsWhitespace(s[n])
  {
    if s != [] && IsWhitespace(s[0]) then
      var m := Lead(s[1..]);
      assert s[..1 + m] == [s[0]] + s[1..][..m];
      1 + m
    else 0
  }

  /** Length of `s` once its trailing whitespace is cut off. */
  function Trail(s: string): (n: nat)
    ensures n <= |s|
    ensures AllWhitespace(s[n..])
    ensures n > 0 ==> !IsWhitespace(s[n - 1])
  {
    if s != [] && IsWhitespace(s[|s| - 1]) then
      var m := Trail(s[..|s| - 1]);
      assert s[m..] == s[..|s| - 1][m..] + [s[|s| - 1]];
      m
    else |s|
  }

  /** The leading whitespace of `s` is exactly its first n characters. */
  lemma {:induction false} LeadIs(s: string, n: nat)
    requires n <= |s| && AllWhitespace(s[..n])
    requires n < |s| ==> !IsWhitespace(s[n])
    ensures Lead(s) == n
  {
    if n > 0 {
      assert s[1..][..n - 1] == s[..n][1..];
      LeadIs(s[1..], n - 1);
    }
  }

  /** The trailing whitespace of `s` is exactly what follows its first n characters. */
  lemma {:induction false} TrailIs(s: string, n: nat)
    requires n <= |s| && AllWhitespace(s[n..])
    requires n > 0 ==> !IsWhitespace(s[n - 1])
    ensures Trail(s) == n
    decreases |s|
  {
    if n < |s| {
      assert s[..|s| - 1][n..] == s[n..][..|s| - 1 - n];
      TrailIs(s[..|s| - 1], n);
    }
  }

  /**
   * `String.prototype.trim`: the infix of `s` left once the leading and the
   * trailing whitespace are removed.
   */
  function Trim(s: string): (r: string)
    ensures Trimmed(r)
    ensures r == [] <==> AllWhitespace(s)
    ensures Lead(s) + |r| <= |s| && r == s[Lead(s)..Lead(s) + |r|]
    ensures AllWhitespace(s[Lead(s) + |r|..])
  {
    var t := s[Lead(s)..];
    var r := t[..Trail(t)];
    assert t[0..] == t;
    assert |t| > 0 ==> t[0] == s[Lead(s)];
    assert s[..|s|] == s;
    assert s[Lead(s) + |r|..] == t[Trail(t)..];
    r
  }

  /** Surrounding a trimmed text with whitespace on both sides is undone by `trim`. */
  lemma TrimPadded(w1: string, x: string, w2: string)
    requires AllWhitespace(w1) && AllWhitespace(w2) && Trimmed(x)
    ensures Trim(w1 + x + w2) == x
  {
    var s := w1 + x + w2;
    if x == [] {
      assert AllWhitespace(s) by {
        forall i | 0 <= i < |s| ensures IsWhitespace(s[i]) {
          if i < |w1| { assert s[i] == w1[i]; } else { assert s[i] == w2[i - |w1|]; }
        }
      }
    } else {
      assert s[..|w1|] == w1 && s[|w1|] == x[0];
      LeadIs(s, |w1|);
      var t := s[|w1|..];
      assert t == x + w2 && t[|x|..] == w2 && t[|x| - 1] == x[|x| - 1];
      TrailIs(t, |x|);
      assert t[..|x|] == x;
    }
  }

  /** Trimming twice is trimming once. */
  lemma TrimIdempotent(s: string)
    ensures Trim(Trim(s)) == Trim(s)
  {
    TrimPadded([], Trim(s), []);
    assert [] + Trim(s) + [] == Trim(s);
  }

  // ------------------------------------------------------ the regular expression

  /** `{{` starts at position p. */
  predicate OpensAt(s: string, p: nat) {
    p + 2 <= |s| && s[p] == '{' && s[p + 1] == '{'
  }

  /** `}}` starts at position q. */
  predicate ClosesAt(s: string, q: nat) {
    q + 2 <= |s| && s[q] == '}' && s[q + 1] == '}'
  }

  /** No line terminator among s[i..j]. */
  predicate OneLine(s: string, i: nat, j: nat)
    requires j <= |s|
  {
    forall m :: i <= m < j ==> !IsLineTerminator(s[m])
  }

  /**
   * One way the pattern can match: `{{` at p, `}}` at q, and the group
   * s[p + 2..q] (what `(.*)` consumes) free of line terminators.
   */
  predicate IsMatch(s: string, p: nat, q: nat) {
    OpensAt(s, p) && p + 2 <= q && ClosesAt(s, q) && OneLine(s, p + 2, q)
  }

  /** The first line terminator at or after i, or the end of `s`: how far `.*` can reach. */
  function LineEnd(s: string, i: nat): (e: nat)
    requires i <= |s|
    ensures i <= e <= |s|
    ensures OneLine(s, i, e)
    ensures e < |s| ==> IsLineTerminator(s[e])
    decreases |s| - i
  {
    if i == |s| || IsLineTerminator(s[i]) then i else LineEnd(s, i + 1)
  }

  /**
   * The greedy group's backtracking: the greatest q with lo <= q and
   * q + 2 <= hi at which `}}` starts, if there is one.
   */
  function LastClose(s: string, lo: nat, hi: nat): (r: Option<nat>)
    requires hi <= |s|
    ensures r.Some? ==> lo <= r.value && r.value + 2 <= hi && ClosesAt(s, r.value)
    ensures forall q :: lo <= q && q + 2 <= hi && ClosesAt(s, q) ==> r.Some? && q <= r.value
    decreases hi
  {
    if hi < lo + 2 then None
    else if ClosesAt(s, hi - 2) then Some(hi - 2)
    else LastClose(s, lo, hi - 1)
  }

  /** A match at p ends its group no later than the line `(.*)` starts on. */
  lemma MatchWithinLine(s: string, p: nat, q: nat)
    requires IsMatch(s, p, q)
    ensures q + 2 <= LineEnd(s, p + 2)
  {
    assert forall m :: p + 2 <= m < q + 2 ==> !IsLineTerminator(s[m]);
  }

  /**
   * The search the regular expression engine makes: try the start positions
   * p, p + 1, ... in turn, and at the first one where the pattern can match,
   * let the greedy group end at the last reachable `}}`.
   */
  function MatchFrom(s: string, p: nat): (r: Option<(nat, nat)>)
    ensures r.Some? ==> p <= r.value.0 && IsMatch(s, r.value.0, r.value.1)
    ensures r.Some? ==> forall q: nat :: IsMatch(s, r.value.0, q) ==> q <= r.value.1
    ensures forall p': nat, q: nat :: p <= p' && IsMatch(s, p', q) ==> r.Some? && r.value.0 <= p'
    decreases |s| - p
  {
    if p + 2 > |s| then None
    else
      var close := LastClose(s, p + 2, LineEnd(s, p + 2));
      assert forall q: nat :: IsMatch(s, p, q) ==> close.Some? && q <= close.value by {
        forall q: nat | IsMatch(s, p, q) ensures close.Some? && q <= close.value {
          MatchWithinLine(s, p, q);
        }
      }
      if OpensAt(s, p) && close.Some? then Some((p, close.value))
      else MatchFrom(s, p + 1)
  }

  /**
   * `RegExp.$1` after `reg.test(s)`: the group of the match the engine
   * finds, or None when the test fails. The test succeeds exactly when the
   * pattern can match somewhere, and the group never spans a line.
   */
  function Capture(s: string): (r: Option<string>)
    ensures r.Some? <==> exists p, q :: IsMatch(s, p, q)
    ensures r.Some? ==> SingleLine(r.value)
  {
    match MatchFrom(s, 0)
    case None => None
    case Some((p, q)) =>
      var c := s[p + 2..q];
      assert SingleLine(c) by {
        forall i | 0 <= i < |c| ensures !IsLineTerminator(c[i]) {
          assert c[i] == s[p + 2 + i];
        }
      }
      Some(c)
  }

  /** The group captured is the one between the leftmost `{{` and the last `}}` reachable from it. */
  lemma CaptureIsLeftmostGreedy(s: string, p: nat, q: nat)
    requires IsMatch(s, p, q)
    requires forall p': nat, q': nat :: IsMatch(s, p', q') ==> p <= p'
    requires forall q': nat :: IsMatch(s, p, q') ==> q' <= q
    ensures Capture(s) == Some(s[p + 2..q])
  {
    var m := MatchFrom(s, 0);
    assert m.Some?;
    assert m.value.0 == p;
    assert m.value.1 == q;
  }

  /**
   * The property name a text node binds: the trimmed group when the pattern
   * matches somewhere in `s`, and nothing otherwise.
   */
  function BindingName(s: string): (r: Option<string>)
    ensures r.Some? <==> exists p, q :: IsMatch(s, p, q)
    ensures r.Some? ==> Trimmed(r.value) && SingleLine(r.value)
  {
    match Capture(s)
    case None => None
    case Some(c) =>
      assert SingleLine(Trim(c)) by {
        forall i | 0 <= i < |Trim(c)| ensures !IsLineTerminator(Trim(c)[i]) {
          assert Trim(c)[i] == c[Lead(c) + i];
        }
      }
      Some(Trim(c))
  }

  /**
   * What the name is: the trimmed text between the `{{` of the leftmost
   * match and the last `}}` reachable from it without crossing a line
   * terminator.
   */
  lemma BindingNameIsLeftmostGreedy(s: string, p: nat, q: nat)
    requires IsMatch(s, p, q)
    requires forall p': nat, q': nat :: IsMatch(s, p', q') ==> p <= p'
    requires forall q': nat :: IsMatch(s, p, q') ==> q' <= q
    ensures BindingName(s) == Some(Trim(s[p + 2..q]))
  {
    CaptureIsLeftmostGreedy(s, p, q);
  }

  /** Text in which the pattern cannot match binds no name. */
  lemma NoMatchNoName(s: string)
    requires forall p: nat, q: nat :: !IsMatch(s, p, q)
    ensures BindingName(s) == None
  {
  }

  /** Text that is `{{`, one line, then `}}` binds that line, trimmed. */
  lemma WholeTextMatch(s: string, body: string)
    requires s == "{{" + body + "}}" && SingleLine(body)
    ensures BindingName(s) == Some(Trim(body))
  {
    assert OneLine(s, 2, |s|) by {
      forall m | 2 <= m < |s| ensures !IsLineTerminator(s[m]) {
        if m < |s| - 2 { assert s[m] == body[m - 2]; }
      }
    }
    assert ClosesAt(s, |s| - 2);
    assert IsMatch(s, 0, |s| - 2);
    BindingNameIsLeftmostGreedy(s, 0, |s| - 2);
    assert s[2..|s| - 2] == body;
  }

  /** Concatenation keeps text on one line. */
  lemma SingleLineConcat(a: string, b: string)
    requires SingleLine(a) && SingleLine(b)
    ensures SingleLine(a + b)
  {
    forall i | 0 <= i < |a + b| ensures !IsLineTerminator((a + b)[i]) {
      if i >= |a| { assert (a + b)[i] == b[i - |a|]; }
    }
  }

  /**
   * A text node whose whole content is `{{`, optional spaces, a name,
   * optional spaces and `}}`, all on one line, binds exactly that name.
   */
  lemma BindingNameOfTemplate(w1: string, name: string, w2: string)
    requires AllWhitespace(w1) && AllWhitespace(w2) && Trimmed(name)
    requires SingleLine(w1) && SingleLine(name) && SingleLine(w2)
    ensures BindingName("{{" + w1 + name + w2 + "}}") == Some(name)
  {
    SingleLineConcat(w1, name);
    SingleLineConcat(w1 + name, w2);
    assert "{{" + w1 + name + w2 + "}}" == "{{" + (w1 + name + w2) + "}}";
    WholeTextMatch("{{" + w1 + name + w2 + "}}", w1 + name + w2);
    TrimPadded(w1, name, w2);
  }

  /** In "a {{x}} b {{y}}" the leftmost `{{` of a match is at 2 and the last reachable `}}` at 13. */
  lemma TwoInterpolationsMatch(s: string)
    requires s == "a {{x}} b {{y}}"
    ensures IsMatch(s, 2, 13) && s[4..13] == "x}} b {{y"
    ensures forall p: nat, q: nat :: IsMatch(s, p, q) ==> 2 <= p && q <= 13
  {
    forall p: nat, q: nat | IsMatch(s, p, q) ensures 2 <= p && q <= 13 {
      assert OpensAt(s, p);
    }
  }

  /**
   * Two interpolations in one text do not bind two names: the greedy group
   * runs from the first `{{` to the last `}}`.
   */
  lemma TwoInterpolationsBindOneName(s: string)
    requires s == "a {{x}} b {{y}}"
    ensures BindingName(s) == Some("x}} b {{y")
  {
    var g := "x}} b {{y";
    assert g[0] == 'x' && g[|g| - 1] == 'y';
    TrimPadded([], g, []);
    assert [] + g + [] == g;
    TwoInterpolationsMatch(s);
    BindingNameIsLeftmostGreedy(s, 2, 13);
  }

  /** A line break inside the braces defeats the pattern: nothing is bound. */
  lemma LineBreakDefeatsPattern(s: string)
    requires s == "{{x\n}}"
    ensures BindingName(s) == None
  {
    forall p: nat, q: nat ensures !IsMatch(s, p, q) {
      if OpensAt(s, p) && ClosesAt(s, q) {
        assert p == 0 && q == 4;
        assert IsLineTerminator(s[3]);
      }
    }
    NoMatchNoName(s);
  }
}
