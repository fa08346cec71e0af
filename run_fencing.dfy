/** Extraction of a player's chosen action from a model's free-text answer:
    the last line that names an available action decides, and the first
    available action is the default. */
module RunFencing {
  import opened PyStr

  /** What the regular-expression class `\w` matches, restricted to ASCII. */
  predicate IsWordChar(c: char) {
    ('a' <= c <= 'z') || ('A' <= c <= 'Z') || ('0' <= c <= '9') || c == '_'
  }

  /** ASCII case folding, as case-insensitive matching compares characters. */
  function Fold(c: char): char {
    if 'A' <= c <= 'Z' then (c as int + 32) as char else c
  }

  /** `\b` at position `i`: a word character on exactly one side. */
  predicate WordBoundary(s: string, i: int)
    requires 0 <= i <= |s|
  {
    (0 < i && IsWordChar(s[i - 1])) != (i < |s| && IsWordChar(s[i]))
  }

  /** The pattern `\b` + escaped `w` + `\b`, ignoring case, matches `text` at `i`. */
  predicate MatchAt(text: string, w: string, i: int)
    ensures MatchAt(text, w, i) && |w| > 0 && IsWordChar(w[0]) && 0 < i <= |text| ==>
      !IsWordChar(text[i - 1])
    ensures MatchAt(text, w, i) && |w| > 0 && IsWordChar(w[|w| - 1]) && 0 <= i + |w| < |text| ==>
      !IsWordChar(text[i + |w|])
  {
    && 0 <= i && i + |w| <= |text|
    && WordBoundary(text, i)
    && (forall k :: 0 <= k < |w| ==> Fold(text[i + k]) == Fold(w[k]))
    && WordBoundary(text, i + |w|)
  }

  /** `w` occurs in `text` as a whole word, ignoring case. */
  ghost predicate Occurs(text: string, w: string) {
    exists i :: MatchAt(text, w, i)
  }

  function SearchFrom(text: string, w: string, i: nat): (found: bool)
    ensures found <==> exists j :: i <= j && MatchAt(text, w, j)
    decreases |text| + 1 - i
  {
    if i + |w| > |text| then false
    else MatchAt(text, w, i) || SearchFrom(text, w, i + 1)
  }

  /** Whether `re.search(r'\b' + re.escape(w) + r'\b', text, re.IGNORECASE)`
      finds a match. */
  function Search(text: string, w: string): (found: bool)
    ensures found <==> Occurs(text, w)
  {
    SearchFrom(text, w, 0)
  }

  /** Whole-word, case-insensitive matching: punctuation ends a word, a
      longer word does not match. */
  lemma WholeWordExamples()
    ensures Occurs("attack.", "ATTACK")
    ensures !Occurs("ATTACKS", "ATTACK")
    ensures !Occurs("COUNTERATTACK", "ATTACK")
  {
    assert MatchAt("attack.", "ATTACK", 0);
    forall i: int
      ensures !MatchAt("ATTACKS", "ATTACK", i)
    {
      if i == 1 {
        assert Fold("ATTACKS"[1]) != Fold("ATTACK"[0]);
      }
    }
    forall i: int
      ensures !MatchAt("COUNTERATTACK", "ATTACK", i)
    {
      if 0 <= i < 7 {
        assert Fold("COUNTERATTACK"[i]) != Fold("ATTACK"[0]);
      }
    }
  }

  /** The lines the parser scans: the stripped output split at newlines. */
  function Lines(output: string): (r: seq<string>)
    ensures |r| >= 1 && Join(r, '\n') == Strip(output)
  {
    SplitJoin(Strip(output), '\n');
    Split(Strip(output), '\n')
  }

  /** Some available action occurs in `line`. */
  ghost predicate LineMatches(line: string, actions: seq<string>) {
    exists k :: 0 <= k < |actions| && Occurs(line, actions[k])
  }

  /** An action name without a line break, as all of the game's action
      names are. */
  predicate SingleLine(w: string) {
    forall k :: 0 <= k < |w| ==> w[k] != '\n'
  }

  /** A word boundary inside a stretch of `text` flanked by non-word
      characters (or the ends) is a boundary in the stretch, and conversely. */
  lemma BoundaryInSlice(text: string, a: nat, b: nat, i: nat)
    requires a <= i <= b <= |text|
    requires a == 0 || !IsWordChar(text[a - 1])
    requires b == |text| || !IsWordChar(text[b])
    ensures WordBoundary(text[a..b], i - a) == WordBoundary(text, i)
  {
    var mid := text[a..b];
    if i > a {
      assert mid[i - a - 1] == text[i - 1];
    }
    if i < b {
      assert mid[i - a] == text[i];
    }
  }

  lemma SliceOfSlice(text: string, a: nat, b: nat, i: nat, n: nat)
    requires a + i + n <= b <= |text|
    ensures text[a..b][i..i + n] == text[a + i..a + i + n]
  {
    var inner := text[a..b][i..i + n];
    forall k | 0 <= k < n
      ensures inner[k] == text[a + i + k]
    {
      assert inner[k] == text[a..b][i + k];
    }
  }

  /** A match inside such a stretch is a match in the stretch, and conversely. */
  lemma MatchInSlice(text: string, w: string, a: nat, b: nat, p: nat)
    requires a <= p && p + |w| <= b <= |text|
    requires a == 0 || !IsWordChar(text[a - 1])
    requires b == |text| || !IsWordChar(text[b])
    ensures MatchAt(text[a..b], w, p - a) <==> MatchAt(text, w, p)
  {
    var mid := text[a..b];
    forall q | p <= q < p + |w|
      ensures mid[q - a] == text[q]
    {
    }
    BoundaryInSlice(text, a, b, p);
    BoundaryInSlice(text, a, b, p + |w|);
  }

  /** `piece` sits in `text` at `c`, with a non-word character or an end of
      `text` on either side. */
  predicate Flanked(text: string, piece: string, c: int) {
    && 0 <= c && c + |piece| <= |text|
    && text[c..c + |piece|] == piece
    && (c == 0 || !IsWordChar(text[c - 1]))
    && (c + |piece| == |text| || !IsWordChar(text[c + |piece|]))
  }

  /** A line of the stripped output sits in the raw output flanked on each
      side by a non-word character or an end of the raw output. */
  lemma LineFlanked(output: string, line: string, a: nat)
    requires PieceAt(Strip(output), '\n', line, a)
    ensures Flanked(output, line, LeadingSpaces(output) + a)
  {
    LineInOutput(output, line, a);
    LineStartFlanked(output, line, a);
    LineEndFlanked(output, line, a);
  }

  lemma LineInOutput(output: string, line: string, a: nat)
    requires PieceAt(Strip(output), '\n', line, a)
    ensures var c := LeadingSpaces(output) + a; c + |line| <= |output| && output[c..c + |line|] == line
  {
    StripSlice(output);
    var s := Strip(output);
    var la := LeadingSpaces(output);
    assert s == output[la..la + |s|];
    assert s[a..a + |line|] == line;
    SliceOfSlice(output, la, la + |s|, a, |line|);
    assert output[la + a..la + a + |line|] == line;
  }

  lemma LineStartFlanked(output: string, line: string, a: nat)
    requires PieceAt(Strip(output), '\n', line, a)
    ensures var c := LeadingSpaces(output) + a; c == 0 || !IsWordChar(output[c - 1])
  {
    StripSlice(output);
    var s := Strip(output);
    var la := LeadingSpaces(output);
    var c := la + a;
    if c > 0 {
      if a > 0 {
        assert output[c - 1] == s[a - 1];
      } else {
        LeadingSpace(output, la - 1);
      }
    }
  }

  lemma LineEndFlanked(output: string, line: string, a: nat)
    requires PieceAt(Strip(output), '\n', line, a)
    ensures var c := LeadingSpaces(output) + a; c + |line| == |output| || !IsWordChar(output[c + |line|])
  {
    StripSlice(output);
    var s := Strip(output);
    var la := LeadingSpaces(output);
    var c := la + a;
    if c + |line| < |output| {
      if a + |line| < |s| {
        assert output[c + |line|] == s[a + |line|];
      } else {
        TrailingSpace(output, la + |s|);
      }
    }
  }

  /** A match in a flanked stretch is a match in the whole text. */
  lemma FlankedOccurs(text: string, piece: string, c: nat, w: string)
    requires Flanked(text, piece, c)
    requires Occurs(piece, w)
    ensures Occurs(text, w)
  {
    var i :| MatchAt(piece, w, i);
    MatchInSlice(text, w, c, c + |piece|, c + i);
    assert MatchAt(text, w, c + i);
  }

  /** A match lying inside a flanked stretch is a match in the stretch. */
  lemma FlankedContains(text: string, piece: string, c: nat, w: string, p: nat)
    requires Flanked(text, piece, c)
    requires MatchAt(text, w, p) && c <= p && p + |w| <= c + |piece|
    ensures Occurs(piece, w)
  {
    MatchInSlice(text, w, c, c + |piece|, p);
    assert MatchAt(piece, w, p - c);
  }

  /** Whatever occurs in one of the scanned lines occurs in the whole output. */
  lemma LineOccursInOutput(output: string, j: nat, w: string)
    requires j < |Lines(output)|
    requires Occurs(Lines(output)[j], w)
    ensures Occurs(output, w)
  {
    var line := Lines(output)[j];
    var a := SplitPiece(Strip(output), '\n', j);
    LineFlanked(output, line, a);
    FlankedOccurs(output, line, LeadingSpaces(output) + a, w);
  }

  /** A match lies within the stripped part of the output: at each end the
      word boundary puts a word character just inside or just outside the
      match, and a word character is never whitespace. */
  lemma MatchInsideStrip(output: string, w: string, p: nat)
    requires MatchAt(output, w, p)
    ensures LeadingSpaces(output) <= p
    ensures p + |w| <= LeadingSpaces(output) + |Strip(output)|
  {
    StripSlice(output);
    var la, e := LeadingSpaces(output), p + |w|;
    if 0 < p && IsWordChar(output[p - 1]) {
      if p - 1 < la {
        LeadingSpace(output, p - 1);
      }
    } else if p < la {
      LeadingSpace(output, p);
    }
    if 0 < e && IsWordChar(output[e - 1]) {
      if la + |Strip(output)| <= e - 1 {
        TrailingSpace(output, e - 1);
      }
    } else if la + |Strip(output)| <= e {
      TrailingSpace(output, e);
    }
  }

  /** A match of a name without a line break contains no line break of the
      stripped output: case folding never turns another character into one. */
  lemma MatchHasNoBreak(output: string, w: string, p: nat)
    requires SingleLine(w) && MatchAt(output, w, p)
    requires LeadingSpaces(output) <= p
    requires p + |w| <= LeadingSpaces(output) + |Strip(output)|
    ensures var s, la := Strip(output), LeadingSpaces(output);
      forall q :: p - la <= q < p - la + |w| ==> s[q] != '\n'
  {
    StripSlice(output);
    var s := Strip(output);
    var la := LeadingSpaces(output);
    forall q | p - la <= q < p - la + |w|
      ensures s[q] != '\n'
    {
      assert s[q] == output[la + q];
      assert Fold(output[p + (la + q - p)]) == Fold(w[la + q - p]);
    }
  }

  /** A name without a line break that occurs in the output occurs in one of
      the scanned lines: stripping removes only whitespace, which no match
      reaches, and a line break cannot fall inside the match. */
  lemma OutputOccursInLine(output: string, w: string) returns (j: nat)
    requires SingleLine(w)
    requires Occurs(output, w)
    ensures j < |Lines(output)| && Occurs(Lines(output)[j], w)
  {
    var p :| MatchAt(output, w, p);
    j := LineOfMatch(output, w, p);
  }

  /** The scanned line that holds a given match of a name without a line break. */
  lemma LineOfMatch(output: string, w: string, p: nat) returns (j: nat)
    requires SingleLine(w) && MatchAt(output, w, p)
    ensures j < |Lines(output)| && Occurs(Lines(output)[j], w)
  {
    MatchInsideStrip(output, w, p);
    MatchHasNoBreak(output, w, p);
    var la := LeadingSpaces(output);
    var a;
    j, a := SplitCover(Strip(output), '\n', p - la, |w|);
    LineFlanked(output, Lines(output)[j], a);
    FlankedContains(output, Lines(output)[j], la + a, w, p);
  }

  /** When no line names an action and no action name holds a line break,
      neither does the whole output, so the whole-text fallback search
      cannot succeed. */
  lemma FallbackFindsNothing(output: string, actions: seq<string>)
    requires forall k :: 0 <= k < |actions| ==> SingleLine(actions[k])
    requires forall j :: 0 <= j < |Lines(output)| ==> !LineMatches(Lines(output)[j], actions)
    ensures forall k :: 0 <= k < |actions| ==> !Occurs(output, actions[k])
  {
    forall k | 0 <= k < |actions| && Occurs(output, actions[k])
      ensures false
    {
      var j := OutputOccursInLine(output, actions[k]);
      assert LineMatches(Lines(output)[j], actions);
    }
  }

  /** `actions[k]` is the first action, in list order, that occurs in `text`. */
  ghost predicate FirstNamed(text: string, actions: seq<string>, k: int) {
    && 0 <= k < |actions|
    && Occurs(text, actions[k])
    && forall q :: 0 <= q < k ==> !Occurs(text, actions[q])
  }

  /** Scans `actions` in order for the first one `text` names. */
  method FindNamed(text: string, actions: seq<string>) returns (found: bool, k: nat)
    ensures found ==> FirstNamed(text, actions, k)
    ensures !found <==> forall q :: 0 <= q < |actions| ==> !Occurs(text, actions[q])
  {
    k := 0;
    while k < |actions|
      invariant k <= |actions|
      invariant forall q :: 0 <= q < k ==> !Occurs(text, actions[q])
    {
      if Search(text, actions[k]) {
        return true, k;
      }
      k := k + 1;
    }
    return false, 0;
  }

  /** The action a model's answer chooses among `availableActions`. Lines of
      the stripped answer are scanned from the last one up; the first line
      naming any available action (whole word, ignoring case) gives the first
      available action, in list order, that it names. Failing that, the first
      available action named anywhere in the answer; failing that, the first
      available action. */
  method ParseAction(modelOutput: string, availableActions: seq<string>) returns (action: string)
    requires |availableActions| > 0
    ensures action in availableActions
    ensures var lines := Lines(modelOutput);
      (exists j :: 0 <= j < |lines| && LineMatches(lines[j], availableActions)) ==>
        exists j, k ::
          && 0 <= j < |lines|
          && FirstNamed(lines[j], availableActions, k)
          && action == availableActions[k]
          && (forall m :: j < m < |lines| ==> !LineMatches(lines[m], availableActions))
    ensures var lines := Lines(modelOutput);
      (forall j :: 0 <= j < |lines| ==> !LineMatches(lines[j], availableActions)) ==>
        || (exists k :: FirstNamed(modelOutput, availableActions, k) && action == availableActions[k])
        || ((forall k :: 0 <= k < |availableActions| ==> !Occurs(modelOutput, availableActions[k]))
            && action == availableActions[0])
    ensures (forall k :: 0 <= k < |availableActions| ==> !Occurs(modelOutput, availableActions[k])) ==>
      action == availableActions[0]
    ensures (forall k :: 0 <= k < |availableActions| ==> SingleLine(availableActions[k])) ==>
      (forall j :: 0 <= j < |Lines(modelOutput)| ==> !LineMatches(Lines(modelOutput)[j], availableActions)) ==>
      action == availableActions[0]
  {
    var bestAction := availableActions[0];
    var lines := Lines(modelOutput);
    var j := |lines|;
    while j > 0
      invariant 0 <= j <= |lines|
      invariant forall m :: j <= m < |lines| ==> !LineMatches(lines[m], availableActions)
    {
      j := j - 1;
      var found, k := FindNamed(lines[j], availableActions);
      if found {
        LineOccursInOutput(modelOutput, j, availableActions[k]);
        return availableActions[k];
      }
    }
    if forall q :: 0 <= q < |availableActions| ==> SingleLine(availableActions[q]) {
      FallbackFindsNothing(modelOutput, availableActions);
    }
    var found, k := FindNamed(modelOutput, availableActions);
    if found {
      return availableActions[k];
    }
    return bestAction;
  }
}
