/** The bulk update request script language of `BulkUpdateRequestProcessor`: the parser that turns a
    script into commands, the DText rendering of the commands, the list of tags a script affects, the
    length limit, and the rule that lets builders approve tag moves. `Tag.normalize_name`, the tag
    category pattern, `PostQuery` and the tag lookup are parameters. */
module BulkUpdateRequest {
  import opened Common

  /** Maximum post count of an artist tag that builders may move. */
  const MaximumBuilderMoveCount := 200

  /** Maximum number of commands in a script. */
  const MaximumScriptLength := 100

  // ---------------------------------------------------------------------------------------------
  // Lines

  /** Every line break, "\r\n", "\r" or "\n", written as "\n". */
  function UnifyNewlines(s: string): (r: string)
    ensures '\r' !in r
    ensures '\r' !in s ==> r == s
    decreases |s|
  {
    if s == [] then ""
    else if s[0] == '\r' then "\n" + UnifyNewlines(if |s| > 1 && s[1] == '\n' then s[2..] else s[1..])
    else [s[0]] + UnifyNewlines(s[1..])
  }

  /** `script.split(/\r\n|\r|\n/)`, keeping the empty pieces at the end that Ruby drops; they are blank,
      and the parser drops blank lines anyway. */
  function SplitLines(script: string): (lines: seq<string>)
    ensures |lines| >= 1
    ensures forall i :: 0 <= i < |lines| ==> '\n' !in lines[i] && '\r' !in lines[i]
  {
    var u := UnifyNewlines(script);
    SplitOnPieces(u, '\n', '\r');
    SplitOn(u, '\n')
  }

  /** A script written with "\n" line ends is its lines joined by "\n". */
  lemma LinesRoundTrip(script: string)
    requires '\r' !in script
    ensures Join(SplitLines(script), "\n") == script
  {
    JoinSplit(script, '\n');
  }

  /** Lines written out one after another with the given line breaks between them. */
  function Interleave(lines: seq<string>, breaks: seq<string>): string
    requires |breaks| + 1 == |lines|
  {
    if |lines| == 1 then lines[0] else lines[0] + breaks[0] + Interleave(lines[1..], breaks[1..])
  }

  /** Lines free of line-break characters, each two separated by "\r\n", "\r" or "\n", such that
      every break reads as one: a "\r" followed by an empty line and a "\n" would read as "\r\n". */
  predicate LineBreaks(lines: seq<string>, breaks: seq<string>)
  {
    |breaks| + 1 == |lines|
    && (forall i :: 0 <= i < |lines| ==> '\n' !in lines[i] && '\r' !in lines[i])
    && (forall i :: 0 <= i < |breaks| ==> breaks[i] == "\r\n" || breaks[i] == "\r" || breaks[i] == "\n")
    && (forall i :: 0 <= i < |breaks| - 1 ==> !(breaks[i] == "\r" && lines[i + 1] == [] && breaks[i + 1] == "\n"))
  }

  /** Whatever mix of line breaks a script uses, splitting it gives back its lines. */
  lemma SplitLinesInterleave(lines: seq<string>, breaks: seq<string>)
    requires LineBreaks(lines, breaks)
    ensures SplitLines(Interleave(lines, breaks)) == lines
  {
    UnifyInterleave(lines, breaks);
    SplitJoin(lines, '\n');
  }

  /** Unifying the line breaks of a script gives its lines joined by "\n". */
  lemma {:induction false} UnifyInterleave(lines: seq<string>, breaks: seq<string>)
    requires LineBreaks(lines, breaks)
    ensures UnifyNewlines(Interleave(lines, breaks)) == Join(lines, "\n")
  {
    if |lines| > 1 {
      var tail, rest := lines[1..], breaks[1..];
      var after := Interleave(tail, rest);
      calc {
        UnifyNewlines(Interleave(lines, breaks));
        { assert Interleave(lines, breaks) == lines[0] + breaks[0] + after;
          assert lines[0] + breaks[0] + after == lines[0] + (breaks[0] + after); }
        UnifyNewlines(lines[0] + (breaks[0] + after));
        { UnifyPlain(lines[0], breaks[0] + after); }
        lines[0] + UnifyNewlines(breaks[0] + after);
        { if breaks[0] == "\r" { NoLineFeedAfterReturn(lines, breaks); }
          UnifyBreak(breaks[0], after); }
        lines[0] + ("\n" + UnifyNewlines(after));
        { LineBreaksTail(lines, breaks);
          UnifyInterleave(tail, rest); }
        lines[0] + ("\n" + Join(tail, "\n"));
        Join(lines, "\n");
      }
    }
  }

  lemma LineBreaksTail(lines: seq<string>, breaks: seq<string>)
    requires LineBreaks(lines, breaks) && |lines| > 1
    ensures LineBreaks(lines[1..], breaks[1..])
  {
    var tail, rest := lines[1..], breaks[1..];
    assert forall i :: 0 <= i < |tail| ==> tail[i] == lines[i + 1];
    assert forall i :: 0 <= i < |rest| ==> rest[i] == breaks[i + 1];
  }

  /** What follows a lone "\r" does not start with '\n'. */
  lemma NoLineFeedAfterReturn(lines: seq<string>, breaks: seq<string>)
    requires LineBreaks(lines, breaks) && |lines| > 1 && breaks[0] == "\r"
    ensures var after := Interleave(lines[1..], breaks[1..]); after == [] || after[0] != '\n'
  {
    var tail, rest := lines[1..], breaks[1..];
    var after := Interleave(tail, rest);
    if |tail| > 1 {
      assert after == tail[0] + rest[0] + Interleave(tail[1..], rest[1..]);
      assert tail[0] == [] ==> after[0] == rest[0][0];
    }
    if after != [] && tail[0] != [] {
      assert after[0] == tail[0][0];
    }
  }

  /** A piece without '\r' passes through `UnifyNewlines` unchanged, whatever follows it. */
  lemma {:induction false} UnifyPlain(p: string, rest: string)
    requires '\r' !in p
    ensures UnifyNewlines(p + rest) == p + UnifyNewlines(rest)
  {
    if p != [] {
      ConsAppend(p, rest);
      UnifyCons(p + rest);
      UnifyCons(p);
      UnifyPlain(p[1..], rest);
      assert p == [p[0]] + p[1..];
    } else {
      assert p + rest == rest;
    }
  }

  /** One step of `UnifyNewlines`, on a line that does not start with '\r'. */
  lemma UnifyCons(s: string)
    requires s != [] && s[0] != '\r'
    ensures UnifyNewlines(s) == [s[0]] + UnifyNewlines(s[1..])
  {
  }

  /** One line break becomes one "\n", provided a lone "\r" is not followed by a '\n'. */
  lemma UnifyBreak(b: string, rest: string)
    requires b == "\r\n" || b == "\r" || b == "\n"
    requires b == "\r" ==> rest == [] || rest[0] != '\n'
    ensures UnifyNewlines(b + rest) == "\n" + UnifyNewlines(rest)
  {
    var t := b + rest;
    if b == "\r\n" {
      assert t[0] == '\r' && t[1] == '\n' && t[2..] == rest;
    } else if b == "\r" {
      assert t[0] == '\r' && t[1..] == rest;
    } else {
      assert t[0] == '\n' && t[1..] == rest;
    }
  }

  /** `reject(&:blank?)`. */
  function NonBlankLines(lines: seq<string>): (r: seq<string>)
    ensures |r| <= |lines|
    ensures forall i :: 0 <= i < |r| ==> !IsBlank(r[i]) && r[i] in lines
    ensures (forall i :: 0 <= i < |lines| ==> !IsBlank(lines[i])) ==> r == lines
  {
    if lines == [] then []
    else (if IsBlank(lines[0]) then [] else [lines[0]]) + NonBlankLines(lines[1..])
  }

  lemma {:induction false} NonBlankLinesAppend(a: seq<string>, b: seq<string>)
    ensures NonBlankLines(a + b) == NonBlankLines(a) + NonBlankLines(b)
  {
    if a == [] {
      assert a + b == b;
    } else {
      assert (a + b)[0] == a[0] && (a + b)[1..] == a[1..] + b;
      NonBlankLinesAppend(a[1..], b);
    }
  }

  // ---------------------------------------------------------------------------------------------
  // Whitespace

  /** `gsub(/[[:space:]]+/, " ")`: each run of whitespace becomes one space. */
  function CollapseSpaces(s: string): (r: string)
    ensures |r| <= |s|
    ensures |s| > 0 ==> |r| > 0 && (r[0] == ' ' <==> IsSpace(s[0]))
  {
    if s == [] then ""
    else
      var rest := CollapseSpaces(s[1..]);
      if !IsSpace(s[0]) then
        assert !IsSpace(([s[0]] + rest)[0]);
        [s[0]] + rest
      else
        if |s| > 1 && IsSpace(s[1]) then rest else " " + rest
  }

  /** After collapsing, the only whitespace left is the space, and never two in a row. */
  lemma {:induction false} CollapseCollapsed(s: string)
    ensures Collapsed(CollapseSpaces(s))
  {
    if s != [] {
      var rest := CollapseSpaces(s[1..]);
      CollapseCollapsed(s[1..]);
      CollapseCons(s);
      if !IsSpace(s[0]) {
        ConsCollapsed(s[0], rest);
      } else if !(|s| > 1 && IsSpace(s[1])) {
        assert |s| > 1 ==> rest[0] != ' ';
        ConsCollapsed(' ', rest);
      }
    }
  }

  lemma ConsCollapsed(c: char, rest: string)
    requires Collapsed(rest) && (IsSpace(c) ==> c == ' ') && (c == ' ' && rest != [] ==> rest[0] != ' ')
    ensures Collapsed([c] + rest)
  {
    var r := [c] + rest;
    assert forall i :: 1 <= i < |r| ==> r[i] == rest[i - 1];
  }

  /** Collapsing keeps a line's text: it holds a character that is neither whitespace nor NUL
      exactly when the line did. */
  lemma {:induction false} CollapseKeepsText(s: string)
    ensures HasText(CollapseSpaces(s)) <==> HasText(s)
  {
    if s != [] {
      var rest := CollapseSpaces(s[1..]);
      CollapseKeepsText(s[1..]);
      CollapseCons(s);
      HasTextCons(s);
      if !IsSpace(s[0]) {
        HasTextCons([s[0]] + rest);
        assert ([s[0]] + rest)[1..] == rest;
      } else {
        HasTextCons(" " + rest);
        assert (" " + rest)[1..] == rest;
      }
    }
  }

  /** The characters of a line that are not whitespace, in order. */
  function Solid(s: string): (r: string)
    ensures |r| <= |s|
  {
    if s == [] then [] else (if IsSpace(s[0]) then [] else [s[0]]) + Solid(s[1..])
  }

  /** Collapsing keeps every character that is not whitespace, in order, and adds none. */
  lemma {:induction false} CollapseKeepsSolid(s: string)
    ensures Solid(CollapseSpaces(s)) == Solid(s)
  {
    if s != [] {
      var rest := CollapseSpaces(s[1..]);
      CollapseKeepsSolid(s[1..]);
      if !IsSpace(s[0]) {
        assert ([s[0]] + rest)[0] == s[0] && ([s[0]] + rest)[1..] == rest;
      } else if !(|s| > 1 && IsSpace(s[1])) {
        assert (" " + rest)[0] == ' ' && (" " + rest)[1..] == rest;
      }
    }
  }

  /** Collapsing works piece by piece wherever the cut does not fall inside a run of whitespace. */
  lemma {:induction false} CollapseAppend(a: string, b: string)
    requires a == [] || b == [] || !IsSpace(a[|a| - 1]) || !IsSpace(b[0])
    ensures CollapseSpaces(a + b) == CollapseSpaces(a) + CollapseSpaces(b)
  {
    if a == [] {
      assert a + b == b;
    } else {
      var a' := a[1..];
      assert a' != [] ==> a'[|a'| - 1] == a[|a| - 1];
      CollapseAppend(a', b);
      if !IsSpace(a[0]) {
        CollapseAppendSolid(a, b);
      } else {
        CollapseAppendSpace(a, b);
      }
    }
  }

  lemma CollapseAppendSolid(a: string, b: string)
    requires a != [] && !IsSpace(a[0])
    requires CollapseSpaces(a[1..] + b) == CollapseSpaces(a[1..]) + CollapseSpaces(b)
    ensures CollapseSpaces(a + b) == CollapseSpaces(a) + CollapseSpaces(b)
  {
    ConsAppend(a, b);
    CollapseCons(a);
    CollapseCons(a + b);
  }

  lemma CollapseAppendSpace(a: string, b: string)
    requires a != [] && IsSpace(a[0])
    requires |a| == 1 ==> b == [] || !IsSpace(b[0])
    requires CollapseSpaces(a[1..] + b) == CollapseSpaces(a[1..]) + CollapseSpaces(b)
    ensures CollapseSpaces(a + b) == CollapseSpaces(a) + CollapseSpaces(b)
  {
    ConsAppend(a, b);
    CollapseCons(a);
    CollapseCons(a + b);
    SpaceConcat(CollapseSpaces(a[1..]), CollapseSpaces(b));
  }

  lemma SpaceConcat(x: string, y: string)
    ensures " " + (x + y) == (" " + x) + y
  {
  }

  /** One step of `CollapseSpaces`, by the first two characters. */
  lemma CollapseCons(s: string)
    requires s != []
    ensures !IsSpace(s[0]) ==> CollapseSpaces(s) == [s[0]] + CollapseSpaces(s[1..])
    ensures IsSpace(s[0]) && |s| > 1 && IsSpace(s[1]) ==> CollapseSpaces(s) == CollapseSpaces(s[1..])
    ensures IsSpace(s[0]) && !(|s| > 1 && IsSpace(s[1])) ==> CollapseSpaces(s) == " " + CollapseSpaces(s[1..])
  {
  }

  /** A non-empty run of whitespace becomes one space. */
  lemma {:induction false} CollapseBlankRun(w: string)
    requires w != [] && forall i :: 0 <= i < |w| ==> IsSpace(w[i])
    ensures CollapseSpaces(w) == " "
  {
    if |w| > 1 {
      CollapseBlankRun(w[1..]);
    }
  }

  /** A character that neither the collapsing nor `strip` touches. */
  predicate TextChar(c: char)
  {
    !IsSpace(c) && c != '\0'
  }

  /** The line holds something that survives `gsub` and `strip`. */
  predicate HasText(s: string)
  {
    exists i :: 0 <= i < |s| && TextChar(s[i])
  }

  lemma HasTextCons(s: string)
    requires s != []
    ensures HasText(s) <==> TextChar(s[0]) || HasText(s[1..])
  {
    if HasText(s) && !TextChar(s[0]) {
      var i :| 0 <= i < |s| && TextChar(s[i]);
      assert s[1..][i - 1] == s[i];
    }
    if HasText(s[1..]) {
      var i :| 0 <= i < |s[1..]| && TextChar(s[1..][i]);
      assert s[i + 1] == s[1..][i];
    }
  }

  /** A line as the parser sees it: its only whitespace is single spaces between other characters,
      and it neither starts nor ends with a space or a NUL. */
  predicate Normalized(s: string)
  {
    Collapsed(s) && (s != [] ==> !StripSpace(s[0]) && !StripSpace(s[|s| - 1]))
  }

  /** `line.gsub(/[[:space:]]+/, " ").strip`. Nothing is left of a line exactly when it holds nothing
      but whitespace and NUL characters; such a line is not blank when it holds a NUL, and then the
      parser's `next if line.empty?` leaves a nil in its place. */
  function NormalizeLine(line: string): (r: string)
    ensures Normalized(r)
    ensures r != "" <==> HasText(line)
  {
    var c := CollapseSpaces(line);
    CollapseCollapsed(line);
    CollapseKeepsText(line);
    TrimNormalized(c);
    TrimText(c);
    NormalizedText(StripRight(StripLeft(c)));
    StripRight(StripLeft(c))
  }

  /** `strip` cuts nothing but the characters it removes off the ends of the collapsed line: what is
      left is a slice of it, and everything outside the slice is such a character. */
  lemma NormalizeLineTrims(line: string)
    ensures exists d :: StrippedAt(CollapseSpaces(line), NormalizeLine(line), d)
  {
    var c := CollapseSpaces(line);
    var l := StripLeft(c);
    assert NormalizeLine(line) == StripRight(l);
    StrippedSlice(c, l, StripRight(l));
  }

  /** `r` is the slice of `c` that starts at `d`, and everything of `c` outside it is a character
      `strip` removes. */
  predicate StrippedAt(c: string, r: string, d: nat)
  {
    d + |r| <= |c| && r == c[d..d + |r|]
    && (forall i :: 0 <= i < d ==> StripSpace(c[i]))
    && (forall i :: d + |r| <= i < |c| ==> StripSpace(c[i]))
  }

  lemma StrippedSlice(c: string, l: string, r: string)
    requires |l| <= |c| && l == c[|c| - |l|..] && forall i :: 0 <= i < |c| - |l| ==> StripSpace(c[i])
    requires |r| <= |l| && r == l[..|r|] && forall i :: |r| <= i < |l| ==> StripSpace(l[i])
    ensures exists d :: StrippedAt(c, r, d)
  {
    var d := |c| - |l|;
    assert r == c[d..d + |r|];
    forall i | d + |r| <= i < |c| ensures StripSpace(c[i]) {
      assert c[i] == l[i - d];
    }
    assert StrippedAt(c, r, d);
  }

  /** A normalised line is empty exactly when it holds no text. */
  lemma NormalizedText(s: string)
    requires Normalized(s)
    ensures s != "" <==> HasText(s)
  {
    if s != "" {
      assert TextChar(s[0]);
    }
  }

  /** A collapsed line: its only whitespace is the space, never two in a row. */
  predicate Collapsed(c: string)
  {
    (forall i :: 0 <= i < |c| ==> (IsSpace(c[i]) ==> c[i] == ' '))
    && (forall i :: 0 <= i < |c| - 1 ==> !(c[i] == ' ' && c[i + 1] == ' '))
  }

  lemma SliceCollapsed(c: string, lo: nat, hi: nat)
    requires lo <= hi <= |c| && Collapsed(c)
    ensures Collapsed(c[lo..hi])
  {
    var s := c[lo..hi];
    assert forall i :: 0 <= i < |s| ==> s[i] == c[lo + i];
  }

  /** Trimming the spaces off both ends of a collapsed line leaves it normalised. */
  lemma TrimNormalized(c: string)
    requires Collapsed(c)
    ensures Normalized(StripRight(StripLeft(c)))
  {
    var l := StripLeft(c);
    TrimmedNormalized(c, l, StripRight(l));
  }

  /** A start of a tail of a collapsed line that begins and ends outside the trimmed characters is
      normalised. */
  lemma TrimmedNormalized(c: string, l: string, r: string)
    requires Collapsed(c) && |l| <= |c| && l == c[|c| - |l|..] && (l != [] ==> !StripSpace(l[0]))
    requires |r| <= |l| && r == l[..|r|] && (r != [] ==> !StripSpace(r[|r| - 1]))
    ensures Normalized(r)
  {
    var d := |c| - |l|;
    assert forall i :: 0 <= i < |r| ==> r[i] == c[d + i];
    CollapsedPiece(c, r, d);
    if r != [] {
      assert r[0] == l[0];
    }
  }

  /** A run of characters copied out of a collapsed line is collapsed. */
  lemma CollapsedPiece(c: string, r: string, d: nat)
    requires Collapsed(c) && d + |r| <= |c|
    requires forall i :: 0 <= i < |r| ==> r[i] == c[d + i]
    ensures Collapsed(r)
  {
    forall i | 0 <= i < |r| - 1 ensures !(r[i] == ' ' && r[i + 1] == ' ') {
      assert r[i] == c[d + i] && r[i + 1] == c[d + i + 1];
    }
  }

  /** Trimming keeps every character that is neither whitespace nor NUL, and adds none. */
  lemma TrimText(c: string)
    ensures HasText(StripRight(StripLeft(c))) <==> HasText(c)
  {
    var l := StripLeft(c);
    TrimmedText(c, l, StripRight(l));
  }

  /** Cutting characters that `strip` removes off the front and then the back of a line keeps its
      text. */
  lemma TrimmedText(c: string, l: string, r: string)
    requires |l| <= |c| && l == c[|c| - |l|..] && forall i :: 0 <= i < |c| - |l| ==> StripSpace(c[i])
    requires |r| <= |l| && r == l[..|r|] && forall i :: |r| <= i < |l| ==> StripSpace(l[i])
    ensures HasText(r) <==> HasText(c)
  {
    if HasText(c) {
      TrimmedKeepsText(c, l, r);
    }
    if HasText(r) {
      TrimmedAddsNoText(c, l, r);
    }
  }

  lemma TrimmedKeepsText(c: string, l: string, r: string)
    requires |l| <= |c| && l == c[|c| - |l|..] && forall i :: 0 <= i < |c| - |l| ==> StripSpace(c[i])
    requires |r| <= |l| && r == l[..|r|] && forall i :: |r| <= i < |l| ==> StripSpace(l[i])
    requires HasText(c)
    ensures HasText(r)
  {
    var d := |c| - |l|;
    var j :| 0 <= j < |c| && TextChar(c[j]);
    assert !StripSpace(c[j]);
    assert d <= j;
    var k := j - d;
    assert l[k] == c[j];
    assert k < |r|;
    assert r[k] == c[j];
  }

  lemma TrimmedAddsNoText(c: string, l: string, r: string)
    requires |l| <= |c| && l == c[|c| - |l|..]
    requires |r| <= |l| && r == l[..|r|]
    requires HasText(r)
    ensures HasText(c)
  {
    var k :| 0 <= k < |r| && TextChar(r[k]);
    assert r[k] == l[k] == c[|c| - |l| + k];
  }

  /** Normalising a line twice changes nothing more. */
  lemma NormalizeLineFixed(line: string)
    requires Normalized(line)
    ensures NormalizeLine(line) == line
  {
    CollapseFixed(line);
  }

  lemma {:induction false} CollapseFixed(s: string)
    requires forall i :: 0 <= i < |s| ==> (IsSpace(s[i]) ==> s[i] == ' ')
    requires forall i :: 0 <= i < |s| - 1 ==> !(s[i] == ' ' && s[i + 1] == ' ')
    ensures CollapseSpaces(s) == s
  {
    if s != [] {
      CollapseFixed(s[1..]);
      assert s == [s[0]] + s[1..];
    }
  }

  lemma NormalizeLineIdempotent(line: string)
    ensures NormalizeLine(NormalizeLine(line)) == NormalizeLine(line)
  {
    NormalizeLineFixed(NormalizeLine(line));
  }

  // ---------------------------------------------------------------------------------------------
  // Commands

  datatype PairKind = CreateAlias | CreateImplication | RemoveAlias | RemoveImplication | Rename

  datatype TagOp = Nuke | Deprecate | Undeprecate

  /** One line of a script: `[:create_alias, a, b]`, `[:mass_update, a, b]`, `[:nuke, tag]`, … */
  datatype Command =
    | Pair(kind: PairKind, antecedent: string, consequent: string)
    | MassUpdate(query: string, update: string)
    | ChangeCategory(tag: string, category: string)
    | TagCommand(op: TagOp, tag: string)
    | InvalidLine(line: string)
    | EmptyLine

  /** A command `to_dtext` and `affected_tags` know: neither an invalid line nor the nil left by a line
      that `strip` empties. */
  predicate Recognised(c: Command)
  {
    !c.InvalidLine? && !c.EmptyLine?
  }

  /** A keyword: lower-case words with single spaces between them. */
  predicate KeywordShape(kw: string)
  {
    kw != [] && kw[0] != ' ' && kw[|kw| - 1] != ' '
    && (forall i :: 0 <= i < |kw| ==> 'a' <= kw[i] <= 'z' || kw[i] == ' ')
    && (forall i :: 0 <= i < |kw| - 1 ==> kw[i] != ' ' || kw[i + 1] != ' ')
  }

  lemma KeywordNormalized(kw: string)
    requires KeywordShape(kw)
    ensures Normalized(kw)
  {
    forall i | 0 <= i < |kw|
      ensures IsSpace(kw[i]) ==> kw[i] == ' '
    {
      assert 'a' <= kw[i] <= 'z' || kw[i] == ' ';
    }
    forall i | 0 <= i < |kw| - 1
      ensures !(kw[i] == ' ' && kw[i + 1] == ' ')
    {
    }
  }

  /** The first spelling of a pair command's keyword, the one tried first. */
  function PairKeyword(kind: PairKind): (kw: string)
    ensures KeywordShape(kw)
  {
    match kind
    case CreateAlias => "create alias"
    case CreateImplication => "create implication"
    case RemoveAlias => "remove alias"
    case RemoveImplication => "remove implication"
    case Rename => "rename"
  }

  /** The second spelling of a pair command's keyword; `rename` has none. */
  function ShortPairKeyword(kind: PairKind): (kw: Option<string>)
    ensures kw.Some? ==> KeywordShape(kw.value)
  {
    match kind
    case CreateAlias => Some("alias")
    case CreateImplication => Some("imply")
    case RemoveAlias => Some("unalias")
    case RemoveImplication => Some("unimply")
    case Rename => None
  }

  function TagKeyword(op: TagOp): (kw: string)
    ensures KeywordShape(kw)
  {
    match op
    case Nuke => "nuke"
    case Deprecate => "deprecate"
    case Undeprecate => "undeprecate"
  }

  // ---------------------------------------------------------------------------------------------
  // The patterns

  /** Ruby's `\s`: the ASCII whitespace characters. */
  predicate IsRegexSpace(c: char)
  {
    c == ' ' || '\t' <= c <= '\r'
  }

  predicate NotRegexSpace(c: char)
  {
    !IsRegexSpace(c)
  }

  /** `w` is a match of `\S+`. */
  predicate IsWord(w: string)
  {
    |w| > 0 && forall i :: 0 <= i < |w| ==> NotRegexSpace(w[i])
  }

  /** `kw` written in any mix of letter cases, as a `/i` pattern accepts it. */
  predicate SpelledAs(kw: string, keyword: string)
  {
    |kw| == |keyword| && forall i :: 0 <= i < |kw| ==> LowerChar(kw[i]) == keyword[i]
  }

  /** `line` starts with the (lower-case) `keyword` in any letter case, followed by a space. */
  predicate KeywordAt(line: string, keyword: string)
  {
    |keyword| < |line| && line[|keyword|] == ' ' && forall i :: 0 <= i < |keyword| ==> LowerChar(line[i]) == keyword[i]
  }

  /** `(\S+) -> (\S+)\z`: two words around an arrow. */
  function PairArgs(s: string): (r: Option<(string, string)>)
    ensures r.Some? ==> IsWord(r.value.0) && IsWord(r.value.1) && s == r.value.0 + " -> " + r.value.1
  {
    var n := Run(s, NotRegexSpace);
    if 0 < n && StartsWith(s[n..], " -> ") && IsWord(s[n + 4..]) then
      assert s == s[..n] + s[n..n + 4] + s[n + 4..];
      Some((s[..n], s[n + 4..]))
    else None
  }

  /** Two words around an arrow are read back as they are. */
  lemma PairArgsComplete(x: string, y: string)
    requires IsWord(x) && IsWord(y)
    ensures PairArgs(x + " -> " + y) == Some((x, y))
  {
    var s := x + " -> " + y;
    assert s == x + (" -> " + y);
    RunAppend(x, " -> " + y, NotRegexSpace);
    RunExact(x, NotRegexSpace, |x|);
    assert s[|x|..] == " -> " + y;
    assert s[|x| + 4..] == y;
    assert s[..|x|] == x;
  }

  /** `s[k..]` starts with " -> ". */
  predicate ArrowAt(s: string, k: int)
  {
    0 <= k && k + 4 <= |s| && s[k..k + 4] == " -> "
  }

  /** The first arrow in `s` at or after `from`. */
  function FirstArrow(s: string, from: nat): (r: Option<nat>)
    ensures r.Some? ==> from <= r.value && ArrowAt(s, r.value)
    ensures r.Some? ==> forall k :: from <= k < r.value ==> !ArrowAt(s, k)
    ensures r.None? ==> forall k :: from <= k ==> !ArrowAt(s, k)
    decreases |s| - from
  {
    if from + 4 > |s| then None
    else if ArrowAt(s, from) then Some(from)
    else FirstArrow(s, from + 1)
  }

  /** `(.+?) -> (.*)\z`: the query is the shortest non-empty start of `s` that is followed by " -> ",
      the update is everything after that arrow; `.` does not match a line break. */
  function MassUpdateArgs(s: string): (r: Option<(string, string)>)
    ensures r.Some? ==> s == r.value.0 + " -> " + r.value.1 && |r.value.0| >= 1
    ensures r.Some? ==> forall k :: 1 <= k < |r.value.0| ==> !ArrowAt(s, k)
    ensures r.None? && '\n' !in s ==> forall k :: 1 <= k ==> !ArrowAt(s, k)
  {
    var k := FirstArrow(s, 1);
    if k.Some? && '\n' !in s then
      var a, c := s[..k.value], s[k.value + 4..];
      assert s == a + s[k.value..k.value + 4] + c;
      Some((a, c))
    else None
  }

  /** A query without ">" is read back whole: the arrow after it is the first one. */
  lemma MassUpdateArgsComplete(a: string, c: string)
    requires |a| >= 1 && '>' !in a
    requires '\n' !in a && '\n' !in c
    ensures MassUpdateArgs(a + " -> " + c) == Some((a, c))
  {
    var s := a + " -> " + c;
    forall k | 1 <= k < |a| ensures !ArrowAt(s, k) {
      if k + 4 <= |s| {
        assert s[k..k + 4][2] == s[k + 2];
      }
      if k + 2 < |a| {
        assert s[k + 2] == a[k + 2];
      } else if k + 2 == |a| {
        assert s[k + 2] == ' ';
      } else {
        assert s[k + 2] == '-';
      }
    }
    assert ArrowAt(s, |a|) by {
      assert s[|a|..|a| + 4] == " -> ";
    }
    assert s[..|a|] == a;
    assert s[|a| + 4..] == c;
  }

  /** `(\S+) -> (category)\z`, where `isCategory` stands for the pattern of category names. */
  function CategoryArgs(s: string, isCategory: string -> bool): (r: Option<(string, string)>)
    ensures r.Some? ==> IsWord(r.value.0) && isCategory(r.value.1) && s == r.value.0 + " -> " + r.value.1
  {
    var n := Run(s, NotRegexSpace);
    if 0 < n && StartsWith(s[n..], " -> ") && isCategory(s[n + 4..]) then
      assert s == s[..n] + s[n..n + 4] + s[n + 4..];
      Some((s[..n], s[n + 4..]))
    else None
  }

  lemma CategoryArgsComplete(x: string, category: string, isCategory: string -> bool)
    requires IsWord(x) && isCategory(category)
    ensures CategoryArgs(x + " -> " + category, isCategory) == Some((x, category))
  {
    var s := x + " -> " + category;
    assert s == x + (" -> " + category);
    RunAppend(x, " -> " + category, NotRegexSpace);
    RunExact(x, NotRegexSpace, |x|);
    assert s[|x|..] == " -> " + category;
    assert s[|x| + 4..] == category;
    assert s[..|x|] == x;
  }

  /** `\A<keyword> <args>\z` under `/i`: the arguments after the keyword, when they match. */
  function After<T>(line: string, keyword: string, args: string -> Option<T>): (r: Option<T>)
    ensures r.Some? ==> KeywordAt(line, keyword)
    ensures KeywordAt(line, keyword) ==> r == args(line[|keyword| + 1..])
  {
    if KeywordAt(line, keyword) then args(line[|keyword| + 1..]) else None
  }

  /** `\A(?:<first>|<second>) <args>\z`: the first alternative whose arguments match. */
  function Either<T>(line: string, first: string, second: Option<string>, args: string -> Option<T>)
    : (r: Option<T>)
    ensures r.Some? ==> KeywordAt(line, first) || (second.Some? && KeywordAt(line, second.value))
  {
    var r := After(line, first, args);
    if r.Some? || second.None? then r else After(line, second.value, args)
  }

  /** The pattern of a pair command. */
  function PairMatch(line: string, kind: PairKind): (r: Option<(string, string)>)
    ensures r.Some? ==> IsWord(r.value.0) && IsWord(r.value.1)
  {
    Either(line, PairKeyword(kind), ShortPairKeyword(kind), PairArgs)
  }

  /** `\A<keyword> (\S+)\z`. */
  function WordAfter(line: string, keyword: string): (r: Option<string>)
    ensures r.Some? ==> KeywordAt(line, keyword) && IsWord(r.value) && r.value == line[|keyword| + 1..]
  {
    if KeywordAt(line, keyword) && IsWord(line[|keyword| + 1..]) then Some(line[|keyword| + 1..]) else None
  }

  /** The five pair patterns, in order. */
  function ParsePair(line: string, normalize: string -> string): (r: Option<Command>)
    ensures r.Some? ==> r.value.Pair?
  {
    var alias := PairMatch(line, CreateAlias);
    var imply := PairMatch(line, CreateImplication);
    var unalias := PairMatch(line, RemoveAlias);
    var unimply := PairMatch(line, RemoveImplication);
    var rename := PairMatch(line, Rename);
    if alias.Some? then Some(Pair(CreateAlias, normalize(alias.value.0), normalize(alias.value.1)))
    else if imply.Some? then Some(Pair(CreateImplication, normalize(imply.value.0), normalize(imply.value.1)))
    else if unalias.Some? then Some(Pair(RemoveAlias, normalize(unalias.value.0), normalize(unalias.value.1)))
    else if unimply.Some? then Some(Pair(RemoveImplication, normalize(unimply.value.0), normalize(unimply.value.1)))
    else if rename.Some? then Some(Pair(Rename, normalize(rename.value.0), normalize(rename.value.1)))
    else None
  }

  /** The mass update pattern. */
  function UpdateMatch(line: string): (r: Option<(string, string)>)
    ensures r.Some? ==> KeywordAt(line, "mass update") || KeywordAt(line, "update")
  {
    Either(line, "mass update", Some("update"), MassUpdateArgs)
  }

  /** The category pattern. */
  function CategoryMatch(line: string, isCategory: string -> bool): (r: Option<(string, string)>)
    ensures r.Some? ==> KeywordAt(line, "category") && isCategory(r.value.1)
  {
    if KeywordAt(line, "category") then CategoryArgs(line[9..], isCategory) else None
  }

  /** The three tag patterns, in order. */
  function ParseTag(line: string): (r: Option<Command>)
    ensures r.Some? ==> r.value.TagCommand? && KeywordAt(line, TagKeyword(r.value.op))
    ensures r.Some? ==> IsWord(r.value.tag) && r.value.tag == line[|TagKeyword(r.value.op)| + 1..]
  {
    var nuke := WordAfter(line, "nuke");
    var deprecate := WordAfter(line, "deprecate");
    var undeprecate := WordAfter(line, "undeprecate");
    if nuke.Some? then Some(TagCommand(Nuke, nuke.value))
    else if deprecate.Some? then Some(TagCommand(Deprecate, deprecate.value))
    else if undeprecate.Some? then Some(TagCommand(Undeprecate, undeprecate.value))
    else None
  }

  /** The case statement of `commands`: the patterns in order, the first that matches decides, and a
      line that matches none is an invalid line. `normalize` stands for `Tag.normalize_name`. */
  function ParseLine(line: string, normalize: string -> string, isCategory: string -> bool): (c: Command)
    ensures !c.EmptyLine?
    ensures c.InvalidLine? ==> c.line == line
    ensures c.MassUpdate? ==> KeywordAt(line, "mass update") || KeywordAt(line, "update")
    ensures c.ChangeCategory? ==> KeywordAt(line, "category")
    ensures c.TagCommand? ==> KeywordAt(line, TagKeyword(c.op)) && IsWord(c.tag)
  {
    var pair := ParsePair(line, normalize);
    var update := UpdateMatch(line);
    var category := CategoryMatch(line, isCategory);
    var tag := ParseTag(line);
    if pair.Some? then pair.value
    else if update.Some? then MassUpdate(update.value.0, update.value.1)
    else if category.Some? then ChangeCategory(normalize(category.value.0), Lower(category.value.1))
    else if tag.Some? then tag.value
    else InvalidLine(line)
  }

  /** The block of `commands` for one non-blank line: normalise it, give nil (`EmptyLine`) if nothing
      is left, else parse it. */
  function CommandFor(line: string, normalize: string -> string, isCategory: string -> bool): (c: Command)
    ensures c.EmptyLine? <==> !HasText(line)
    ensures HasText(line) ==> c == ParseLine(NormalizeLine(line), normalize, isCategory)
  {
    var l := NormalizeLine(line);
    if l == "" then EmptyLine else ParseLine(l, normalize, isCategory)
  }

  /** `commands`: one entry per non-blank line of the script, in order. */
  function Commands(script: string, normalize: string -> string, isCategory: string -> bool): (cmds: seq<Command>)
    ensures |cmds| == |NonBlankLines(SplitLines(script))| <= |SplitLines(script)|
    ensures forall i :: 0 <= i < |cmds| ==>
      cmds[i] == CommandFor(NonBlankLines(SplitLines(script))[i], normalize, isCategory)
  {
    CommandsOf(NonBlankLines(SplitLines(script)), normalize, isCategory)
  }

  function CommandsOf(lines: seq<string>, normalize: string -> string, isCategory: string -> bool)
    : (cmds: seq<Command>)
    ensures |cmds| == |lines|
    ensures forall i :: 0 <= i < |lines| ==> cmds[i] == CommandFor(lines[i], normalize, isCategory)
  {
    seq(|lines|, i requires 0 <= i < |lines| => CommandFor(lines[i], normalize, isCategory))
  }

  // ---------------------------------------------------------------------------------------------
  // What each kind of line parses to

  /** A line that starts with a keyword spelled in any case: the keyword test passes and the rest of
      the line is what follows the space. */
  lemma KeywordLine(kw: string, keyword: string, rest: string)
    requires SpelledAs(kw, keyword)
    ensures KeywordAt(kw + " " + rest, keyword)
    ensures (kw + " " + rest)[|keyword| + 1..] == rest
  {
    var line := kw + " " + rest;
    assert forall i :: 0 <= i < |kw| ==> line[i] == kw[i];
  }

  /** A keyword is not at the start of a line that differs from it at some character. */
  lemma Mismatch(kw: string, rest: string, keyword: string, j: nat)
    requires j < |kw| && j < |keyword| && LowerChar(kw[j]) != keyword[j]
    ensures !KeywordAt(kw + " " + rest, keyword)
  {
    assert (kw + " " + rest)[j] == kw[j];
  }

  /** The position of each pair pattern in the case statement. */
  function Rank(kind: PairKind): nat
  {
    match kind
    case CreateAlias => 0
    case CreateImplication => 1
    case RemoveAlias => 2
    case RemoveImplication => 3
    case Rename => 4
  }

  /** The first pair pattern that matches decides. */
  lemma ParsePairHit(line: string, kind: PairKind, normalize: string -> string)
    requires PairMatch(line, kind).Some?
    requires NoPairKeywordBefore(line, Rank(kind))
    ensures ParsePair(line, normalize)
         == Some(Pair(kind, normalize(PairMatch(line, kind).value.0), normalize(PairMatch(line, kind).value.1)))
  {
    NoEarlierPairMatch(line, Rank(kind));
  }

  lemma NoEarlierPairMatch(line: string, n: nat)
    requires NoPairKeywordBefore(line, n)
    ensures n > 0 ==> PairMatch(line, CreateAlias).None?
    ensures n > 1 ==> PairMatch(line, CreateImplication).None?
    ensures n > 2 ==> PairMatch(line, RemoveAlias).None?
    ensures n > 3 ==> PairMatch(line, RemoveImplication).None?
  {
  }

  /** The nine pair keywords. */
  predicate PairKeywordAt(line: string)
  {
    KeywordAt(line, "create alias") || KeywordAt(line, "alias")
    || KeywordAt(line, "create implication") || KeywordAt(line, "imply")
    || KeywordAt(line, "remove alias") || KeywordAt(line, "unalias")
    || KeywordAt(line, "remove implication") || KeywordAt(line, "unimply")
    || KeywordAt(line, "rename")
  }

  lemma NoPairMatches(line: string)
    requires !PairKeywordAt(line)
    ensures PairMatch(line, CreateAlias).None? && PairMatch(line, CreateImplication).None?
    ensures PairMatch(line, RemoveAlias).None? && PairMatch(line, RemoveImplication).None?
    ensures PairMatch(line, Rename).None?
  {
  }

  /** A line without a pair keyword is no pair command. */
  lemma NoPairKeywordNoPair(line: string, normalize: string -> string)
    requires !PairKeywordAt(line)
    ensures ParsePair(line, normalize).None?
  {
    NoPairMatches(line);
  }

  /** A keyword in lower case is found at the start of a line that starts with it. */
  lemma OwnKeyword(kw: string, rest: string)
    requires KeywordShape(kw)
    ensures KeywordAt(kw + " " + rest, kw)
    ensures (kw + " " + rest)[|kw| + 1..] == rest
  {
    var line := kw + " " + rest;
    forall i | 0 <= i < |kw|
      ensures LowerChar(line[i]) == kw[i]
    {
      assert line[i] == kw[i];
    }
  }

  /** The spelling of a pair keyword: the second one when `short`. */
  function PairSpelling(kind: PairKind, short: bool): (kw: string)
    requires short ==> ShortPairKeyword(kind).Some?
    ensures KeywordShape(kw)
  {
    if short then ShortPairKeyword(kind).value else PairKeyword(kind)
  }

  /** No keyword of an earlier pair pattern, nor the first spelling when the second is used, is at
      the start of a line with a pair keyword. */
  lemma EarlierPairKeywordsMiss(kind: PairKind, short: bool, rest: string)
    requires short ==> ShortPairKeyword(kind).Some?
    ensures short ==> !KeywordAt(PairSpelling(kind, short) + " " + rest, PairKeyword(kind))
    ensures NoPairKeywordBefore(PairSpelling(kind, short) + " " + rest, Rank(kind))
  {
    var kw := PairSpelling(kind, short);
    match kind
    case CreateAlias =>
      if short {
        Mismatch("alias", rest, "create alias", 0);
      }
    case CreateImplication =>
      if short {
        Mismatch("imply", rest, "create alias", 0);
        Mismatch("imply", rest, "alias", 0);
        Mismatch("imply", rest, "create implication", 0);
      } else {
        Mismatch("create implication", rest, "create alias", 7);
        Mismatch("create implication", rest, "alias", 0);
      }
    case RemoveAlias =>
      Mismatch(kw, rest, "create alias", 0);
      Mismatch(kw, rest, "alias", 0);
      Mismatch(kw, rest, "create implication", 0);
      Mismatch(kw, rest, "imply", 0);
      if short {
        Mismatch("unalias", rest, "remove alias", 0);
      }
    case RemoveImplication =>
      Mismatch(kw, rest, "create alias", 0);
      Mismatch(kw, rest, "alias", 0);
      Mismatch(kw, rest, "create implication", 0);
      Mismatch(kw, rest, "imply", 0);
      if short {
        Mismatch("unimply", rest, "remove alias", 0);
        Mismatch("unimply", rest, "unalias", 2);
        Mismatch("unimply", rest, "remove implication", 0);
      } else {
        Mismatch("remove implication", rest, "remove alias", 7);
        Mismatch("remove implication", rest, "unalias", 0);
      }
    case Rename =>
      Mismatch("rename", rest, "create alias", 0);
      Mismatch("rename", rest, "alias", 0);
      Mismatch("rename", rest, "create implication", 0);
      Mismatch("rename", rest, "imply", 0);
      Mismatch("rename", rest, "remove alias", 2);
      Mismatch("rename", rest, "unalias", 0);
      Mismatch("rename", rest, "remove implication", 2);
      Mismatch("rename", rest, "unimply", 0);
  }

  /** None of the keywords of the first `n` pair patterns is at the start of the line. */
  predicate NoPairKeywordBefore(line: string, n: nat)
  {
    (n > 0 ==> !KeywordAt(line, "create alias") && !KeywordAt(line, "alias"))
    && (n > 1 ==> !KeywordAt(line, "create implication") && !KeywordAt(line, "imply"))
    && (n > 2 ==> !KeywordAt(line, "remove alias") && !KeywordAt(line, "unalias"))
    && (n > 3 ==> !KeywordAt(line, "remove implication") && !KeywordAt(line, "unimply"))
  }

  /** A line with a pair keyword matches that pair pattern and none before it. */
  lemma PairLineMatch(kind: PairKind, short: bool, rest: string, normalize: string -> string)
    requires short ==> ShortPairKeyword(kind).Some?
    requires PairArgs(rest).Some?
    ensures ParsePair(PairSpelling(kind, short) + " " + rest, normalize)
         == Some(Pair(kind, normalize(PairArgs(rest).value.0), normalize(PairArgs(rest).value.1)))
  {
    var line := PairSpelling(kind, short) + " " + rest;
    OwnKeyword(PairSpelling(kind, short), rest);
    EarlierPairKeywordsMiss(kind, short, rest);
    assert PairMatch(line, kind) == PairArgs(rest);
    ParsePairHit(line, kind, normalize);
  }

  /** The keywords of the patterns after the pair patterns. */
  predicate OtherKeyword(kw: string)
  {
    kw == "mass update" || kw == "update" || kw == "category" || kw == "nuke" || kw == "deprecate"
    || kw == "undeprecate"
  }

  /** A line with any other keyword matches no pair pattern. */
  lemma OtherLineNotPair(kw: string, rest: string, normalize: string -> string)
    requires OtherKeyword(kw)
    ensures ParsePair(kw + " " + rest, normalize).None?
  {
    var j := if kw == "update" || kw == "category" then 1 else if kw == "undeprecate" then 2 else 0;
    Mismatch(kw, rest, "create alias", j);
    Mismatch(kw, rest, "alias", 0);
    Mismatch(kw, rest, "create implication", j);
    Mismatch(kw, rest, "imply", 0);
    Mismatch(kw, rest, "remove alias", 0);
    Mismatch(kw, rest, "unalias", if kw == "update" then 1 else j);
    Mismatch(kw, rest, "remove implication", 0);
    Mismatch(kw, rest, "unimply", if kw == "update" then 1 else j);
    Mismatch(kw, rest, "rename", 0);
    NoPairKeywordNoPair(kw + " " + rest, normalize);
  }

  lemma UpdateLineMatch(kw: string, rest: string)
    requires kw == "mass update" || kw == "update"
    ensures UpdateMatch(kw + " " + rest) == MassUpdateArgs(rest)
  {
    KeywordLine(kw, kw, rest);
    if kw == "update" {
      Mismatch(kw, rest, "mass update", 0);
    }
  }

  lemma CategoryLineMatch(rest: string, isCategory: string -> bool)
    ensures CategoryMatch("category" + " " + rest, isCategory) == CategoryArgs(rest, isCategory)
  {
    KeywordLine("category", "category", rest);
  }

  lemma TagLineMatch(op: TagOp, rest: string)
    requires IsWord(rest)
    ensures ParseTag(TagKeyword(op) + " " + rest) == Some(TagCommand(op, rest))
  {
    var kw := TagKeyword(op);
    KeywordLine(kw, kw, rest);
    if op != Nuke {
      Mismatch(kw, rest, "nuke", 0);
    }
    if op == Undeprecate {
      Mismatch(kw, rest, "deprecate", 0);
    }
  }

  /** The keywords of the later patterns match none of the earlier ones. */
  lemma LaterPatternsMiss(kw: string, rest: string, isCategory: string -> bool)
    requires OtherKeyword(kw)
    ensures kw != "mass update" && kw != "update" ==> UpdateMatch(kw + " " + rest).None?
    ensures kw != "category" ==> CategoryMatch(kw + " " + rest, isCategory).None?
    ensures kw == "mass update" || kw == "update" || kw == "category" ==> ParseTag(kw + " " + rest).None?
  {
    var j := if kw == "update" || kw == "undeprecate" then 1 else 0;
    if kw != "mass update" && kw != "update" {
      Mismatch(kw, rest, "mass update", 0);
      Mismatch(kw, rest, "update", j);
    }
    if kw != "category" {
      Mismatch(kw, rest, "category", 0);
    }
    if kw == "mass update" || kw == "update" || kw == "category" {
      Mismatch(kw, rest, "nuke", 0);
      Mismatch(kw, rest, "deprecate", 0);
      Mismatch(kw, rest, "undeprecate", j);
    }
  }

  lemma ArrowLine(kw: string, x: string, y: string)
    ensures kw + " " + x + " -> " + y == kw + " " + (x + " -> " + y)
  {
  }

  /** The case statement, one branch at a time. */
  lemma ParseLinePair(line: string, normalize: string -> string, isCategory: string -> bool)
    requires ParsePair(line, normalize).Some?
    ensures ParseLine(line, normalize, isCategory) == ParsePair(line, normalize).value
  {
  }

  lemma ParseLineUpdate(line: string, normalize: string -> string, isCategory: string -> bool)
    requires ParsePair(line, normalize).None? && UpdateMatch(line).Some?
    ensures ParseLine(line, normalize, isCategory) == MassUpdate(UpdateMatch(line).value.0, UpdateMatch(line).value.1)
  {
  }

  lemma ParseLineCategory(line: string, normalize: string -> string, isCategory: string -> bool)
    requires ParsePair(line, normalize).None? && UpdateMatch(line).None?
    requires CategoryMatch(line, isCategory).Some?
    ensures ParseLine(line, normalize, isCategory)
         == ChangeCategory(normalize(CategoryMatch(line, isCategory).value.0), Lower(CategoryMatch(line, isCategory).value.1))
  {
  }

  lemma ParseLineTag(line: string, normalize: string -> string, isCategory: string -> bool)
    requires ParsePair(line, normalize).None? && UpdateMatch(line).None?
    requires CategoryMatch(line, isCategory).None? && ParseTag(line).Some?
    ensures ParseLine(line, normalize, isCategory) == ParseTag(line).value
  {
  }

  /** A pair command line, under either spelling of its keyword, gives that command with both names
      normalised. */
  lemma ParsePairLine(kind: PairKind, x: string, y: string, normalize: string -> string, isCategory: string -> bool)
    requires IsWord(x) && IsWord(y)
    ensures ParseLine(PairKeyword(kind) + " " + x + " -> " + y, normalize, isCategory)
         == Pair(kind, normalize(x), normalize(y))
    ensures ShortPairKeyword(kind).Some? ==>
      ParseLine(ShortPairKeyword(kind).value + " " + x + " -> " + y, normalize, isCategory)
         == Pair(kind, normalize(x), normalize(y))
  {
    ParsePairSpelling(kind, false, x, y, normalize, isCategory);
    if ShortPairKeyword(kind).Some? {
      ParsePairSpelling(kind, true, x, y, normalize, isCategory);
    }
  }

  lemma ParsePairSpelling(kind: PairKind, short: bool, x: string, y: string, normalize: string -> string,
                          isCategory: string -> bool)
    requires short ==> ShortPairKeyword(kind).Some?
    requires IsWord(x) && IsWord(y)
    ensures ParseLine(PairSpelling(kind, short) + " " + x + " -> " + y, normalize, isCategory)
         == Pair(kind, normalize(x), normalize(y))
  {
    var kw := PairSpelling(kind, short);
    var rest := x + " -> " + y;
    PairArgsComplete(x, y);
    PairLineMatch(kind, short, rest, normalize);
    ArrowLine(kw, x, y);
    ParseLinePair(kw + " " + rest, normalize, isCategory);
  }

  /** A mass update line, under either spelling, gives the query and the update. */
  lemma ParseMassUpdateLine(query: string, update: string, normalize: string -> string, isCategory: string -> bool)
    requires |query| >= 1 && '>' !in query && '\n' !in query && '\n' !in update
    ensures ParseLine("mass update" + " " + query + " -> " + update, normalize, isCategory) == MassUpdate(query, update)
    ensures ParseLine("update" + " " + query + " -> " + update, normalize, isCategory) == MassUpdate(query, update)
  {
    MassUpdateArgsComplete(query, update);
    ParseUpdateKeyword("mass update", query + " -> " + update, normalize, isCategory);
    ArrowLine("mass update", query, update);
    ParseUpdateKeyword("update", query + " -> " + update, normalize, isCategory);
    ArrowLine("update", query, update);
  }

  lemma ParseUpdateKeyword(kw: string, rest: string, normalize: string -> string, isCategory: string -> bool)
    requires kw == "mass update" || kw == "update"
    requires MassUpdateArgs(rest).Some?
    ensures ParseLine(kw + " " + rest, normalize, isCategory)
         == MassUpdate(MassUpdateArgs(rest).value.0, MassUpdateArgs(rest).value.1)
  {
    OtherLineNotPair(kw, rest, normalize);
    UpdateLineMatch(kw, rest);
    ParseLineUpdate(kw + " " + rest, normalize, isCategory);
  }

  /** A category line with a known category gives the normalised tag and the category in lower case. */
  lemma ParseCategoryLine(x: string, category: string, normalize: string -> string, isCategory: string -> bool)
    requires IsWord(x) && isCategory(category)
    ensures ParseLine("category" + " " + x + " -> " + category, normalize, isCategory)
         == ChangeCategory(normalize(x), Lower(category))
  {
    CategoryArgsComplete(x, category, isCategory);
    ParseCategoryRest(x + " -> " + category, normalize, isCategory);
    ArrowLine("category", x, category);
  }

  lemma ParseCategoryRest(rest: string, normalize: string -> string, isCategory: string -> bool)
    requires CategoryArgs(rest, isCategory).Some?
    ensures ParseLine("category" + " " + rest, normalize, isCategory)
         == ChangeCategory(normalize(CategoryArgs(rest, isCategory).value.0), Lower(CategoryArgs(rest, isCategory).value.1))
  {
    OtherLineNotPair("category", rest, normalize);
    LaterPatternsMiss("category", rest, isCategory);
    CategoryLineMatch(rest, isCategory);
    ParseLineCategory("category" + " " + rest, normalize, isCategory);
  }

  /** `nuke`, `deprecate` and `undeprecate` lines give their command on the tag as written. */
  lemma ParseTagLine(op: TagOp, tag: string, normalize: string -> string, isCategory: string -> bool)
    requires IsWord(tag)
    ensures ParseLine(TagKeyword(op) + " " + tag, normalize, isCategory) == TagCommand(op, tag)
  {
    OtherLineNotPair(TagKeyword(op), tag, normalize);
    LaterPatternsMiss(TagKeyword(op), tag, isCategory);
    TagLineMatch(op, tag);
    ParseLineTag(TagKeyword(op) + " " + tag, normalize, isCategory);
  }

  /** The line starts with one of the script's keywords. */
  predicate StartsWithKeyword(line: string)
  {
    PairKeywordAt(line) || KeywordAt(line, "mass update") || KeywordAt(line, "update")
    || KeywordAt(line, "category") || KeywordAt(line, "nuke") || KeywordAt(line, "deprecate")
    || KeywordAt(line, "undeprecate")
  }

  /** A line that starts with none of the keywords is kept as an invalid line. */
  lemma ParseUnknownLine(line: string, normalize: string -> string, isCategory: string -> bool)
    requires !StartsWithKeyword(line)
    ensures ParseLine(line, normalize, isCategory) == InvalidLine(line)
  {
    NoPairKeywordNoPair(line, normalize);
  }

  // ---------------------------------------------------------------------------------------------
  // Writing commands as a script, and reading them back

  /** The script line for a command, with each keyword's first spelling. */
  function CommandLine(c: Command): string
  {
    match c
    case Pair(kind, a, b) => PairKeyword(kind) + " " + a + " -> " + b
    case MassUpdate(q, u) => "mass update" + " " + q + " -> " + u
    case ChangeCategory(t, cat) => "category" + " " + t + " -> " + cat
    case TagCommand(op, t) => TagKeyword(op) + " " + t
    case InvalidLine(l) => l
    case EmptyLine => ""
  }

  /** A name without whitespace of any kind or NUL. */
  predicate Bare(w: string)
  {
    |w| > 0 && forall i :: 0 <= i < |w| ==> TextChar(w[i])
  }

  /** The commands a script can express: names without whitespace that are already normalised, a
      mass update query without ">" and with an update, a category in its lower-case form. */
  predicate Expressible(c: Command, normalize: string -> string, isCategory: string -> bool)
  {
    match c
    case Pair(_, a, b) => Bare(a) && Bare(b) && normalize(a) == a && normalize(b) == b
    case MassUpdate(q, u) => q != "" && u != "" && Normalized(q) && Normalized(u) && '>' !in q
    case ChangeCategory(t, cat) => Bare(t) && normalize(t) == t && Bare(cat) && isCategory(cat) && Lower(cat) == cat
    case TagCommand(_, t) => Bare(t)
    case InvalidLine(_) => false
    case EmptyLine => false
  }

  lemma BareIsWord(w: string)
    requires Bare(w)
    ensures IsWord(w)
  {
  }

  /** The line written for an expressible command is normalised and not blank. */
  lemma CommandLineNormalized(c: Command, normalize: string -> string, isCategory: string -> bool)
    requires Expressible(c, normalize, isCategory)
    ensures Normalized(CommandLine(c)) && !IsBlank(CommandLine(c))
    ensures '\n' !in CommandLine(c) && '\r' !in CommandLine(c)
  {
    match c
    case Pair(kind, a, b) =>
      KeywordNormalized(PairKeyword(kind));
      JoinedNormalized(PairKeyword(kind), a, b);
    case MassUpdate(q, u) =>
      UpdateCategoryShape();
      JoinedNormalized("mass update", q, u);
    case ChangeCategory(t, cat) =>
      UpdateCategoryShape();
      JoinedNormalized("category", t, cat);
    case TagCommand(op, t) =>
      KeywordNormalized(TagKeyword(op));
      SpacedNormalized(TagKeyword(op), t);
      assert TagKeyword(op)[0] == (TagKeyword(op) + " " + t)[0];
      assert '\n' !in TagKeyword(op) + " " + t && '\r' !in TagKeyword(op) + " " + t;
  }

  lemma UpdateCategoryShape()
    ensures Normalized("mass update") && Normalized("category")
  {
    assert KeywordShape("mass update") && KeywordShape("category");
    KeywordNormalized("mass update");
    KeywordNormalized("category");
  }

  lemma SpacedNormalized(a: string, b: string)
    requires Normalized(a) && Normalized(b) && a != [] && b != []
    ensures Normalized(a + " " + b)
  {
    var s := a + " " + b;
    forall i | 0 <= i < |s| - 1 ensures !(s[i] == ' ' && s[i + 1] == ' ') {
      if i < |a| - 1 {
        assert s[i] == a[i] && s[i + 1] == a[i + 1];
      } else if i > |a| {
        assert s[i] == b[i - |a| - 1] && s[i + 1] == b[i - |a|];
      }
    }
    forall i | 0 <= i < |s| ensures IsSpace(s[i]) ==> s[i] == ' ' {
      if i < |a| {
        assert s[i] == a[i];
      } else if i > |a| {
        assert s[i] == b[i - |a| - 1];
      }
    }
  }

  lemma JoinedNormalized(kw: string, a: string, b: string)
    requires Normalized(kw) && kw != []
    requires Normalized(a) && Normalized(b) && a != [] && b != []
    ensures Normalized(kw + " " + a + " -> " + b) && !IsBlank(kw + " " + a + " -> " + b)
    ensures '\n' !in kw + " " + a + " -> " + b && '\r' !in kw + " " + a + " -> " + b
  {
    SpacedNormalized(kw, a);
    SpacedNormalized(kw + " " + a, "->");
    SpacedNormalized(kw + " " + a + " " + "->", b);
    assert kw + " " + a + " -> " + b == kw + " " + a + " " + "->" + " " + b;
    var s := kw + " " + a + " -> " + b;
    assert forall i :: 0 <= i < |s| ==> (IsSpace(s[i]) ==> s[i] == ' ');
  }

  /** Parsing the line written for a command gives the command back. */
  lemma LineRoundTrip(c: Command, normalize: string -> string, isCategory: string -> bool)
    requires Expressible(c, normalize, isCategory)
    ensures CommandFor(CommandLine(c), normalize, isCategory) == c
  {
    CommandLineNormalized(c, normalize, isCategory);
    NormalizeLineFixed(CommandLine(c));
    assert CommandLine(c) != "";
    match c
    case Pair(kind, a, b) => PairRoundTrip(kind, a, b, normalize, isCategory);
    case MassUpdate(q, u) => MassUpdateRoundTrip(q, u, normalize, isCategory);
    case ChangeCategory(t, cat) => CategoryRoundTrip(t, cat, normalize, isCategory);
    case TagCommand(op, t) => TagRoundTrip(op, t, normalize, isCategory);
  }

  lemma PairRoundTrip(kind: PairKind, a: string, b: string, normalize: string -> string, isCategory: string -> bool)
    requires Expressible(Pair(kind, a, b), normalize, isCategory)
    ensures ParseLine(CommandLine(Pair(kind, a, b)), normalize, isCategory) == Pair(kind, a, b)
  {
    BareIsWord(a);
    BareIsWord(b);
    ParsePairLine(kind, a, b, normalize, isCategory);
  }

  lemma MassUpdateRoundTrip(q: string, u: string, normalize: string -> string, isCategory: string -> bool)
    requires Expressible(MassUpdate(q, u), normalize, isCategory)
    ensures ParseLine(CommandLine(MassUpdate(q, u)), normalize, isCategory) == MassUpdate(q, u)
  {
    assert '\n' !in q by {
      assert forall i :: 0 <= i < |q| ==> q[i] != '\n';
    }
    assert '\n' !in u by {
      assert forall i :: 0 <= i < |u| ==> u[i] != '\n';
    }
    ParseMassUpdateLine(q, u, normalize, isCategory);
  }

  lemma CategoryRoundTrip(t: string, cat: string, normalize: string -> string, isCategory: string -> bool)
    requires Expressible(ChangeCategory(t, cat), normalize, isCategory)
    ensures ParseLine(CommandLine(ChangeCategory(t, cat)), normalize, isCategory) == ChangeCategory(t, cat)
  {
    BareIsWord(t);
    ParseCategoryLine(t, cat, normalize, isCategory);
  }

  lemma TagRoundTrip(op: TagOp, t: string, normalize: string -> string, isCategory: string -> bool)
    requires Expressible(TagCommand(op, t), normalize, isCategory)
    ensures ParseLine(CommandLine(TagCommand(op, t)), normalize, isCategory) == TagCommand(op, t)
  {
    BareIsWord(t);
    ParseTagLine(op, t, normalize, isCategory);
  }

  /** The line written for each command. */
  function CommandLines(cmds: seq<Command>): (lines: seq<string>)
    ensures |lines| == |cmds|
    ensures forall i :: 0 <= i < |cmds| ==> lines[i] == CommandLine(cmds[i])
  {
    seq(|cmds|, i requires 0 <= i < |cmds| => CommandLine(cmds[i]))
  }

  /** `cmds` written one per line. */
  function ToScript(cmds: seq<Command>): string
  {
    Join(CommandLines(cmds), "\n")
  }

  /** A script written from commands parses back to those commands. */
  lemma ScriptRoundTrip(cmds: seq<Command>, normalize: string -> string, isCategory: string -> bool)
    requires forall i :: 0 <= i < |cmds| ==> Expressible(cmds[i], normalize, isCategory)
    ensures Commands(ToScript(cmds), normalize, isCategory) == cmds
  {
    ScriptLines(cmds, normalize, isCategory);
    var parsed := Commands(ToScript(cmds), normalize, isCategory);
    forall i | 0 <= i < |cmds|
      ensures parsed[i] == cmds[i]
    {
      LineRoundTrip(cmds[i], normalize, isCategory);
    }
  }

  /** The non-blank lines of a written script are the lines written for its commands. */
  lemma ScriptLines(cmds: seq<Command>, normalize: string -> string, isCategory: string -> bool)
    requires forall i :: 0 <= i < |cmds| ==> Expressible(cmds[i], normalize, isCategory)
    ensures NonBlankLines(SplitLines(ToScript(cmds))) == CommandLines(cmds)
  {
    var lines := CommandLines(cmds);
    forall i | 0 <= i < |cmds| ensures !IsBlank(lines[i]) && '\n' !in lines[i] && '\r' !in lines[i] {
      CommandLineNormalized(cmds[i], normalize, isCategory);
    }
    if cmds == [] {
      assert SplitLines(ToScript(cmds)) == [""];
    } else {
      NoCarriageReturn(lines);
      SplitJoin(lines, '\n');
      assert SplitLines(ToScript(cmds)) == lines;
    }
  }

  lemma {:induction false} NoCarriageReturn(lines: seq<string>)
    requires forall i :: 0 <= i < |lines| ==> '\r' !in lines[i]
    ensures '\r' !in Join(lines, "\n")
  {
    if |lines| > 1 {
      NoCarriageReturn(lines[1..]);
    }
  }

  // ---------------------------------------------------------------------------------------------
  // to_dtext

  /** `command.to_s`. */
  function PairSymbol(kind: PairKind): string
  {
    match kind
    case CreateAlias => "create_alias"
    case CreateImplication => "create_implication"
    case RemoveAlias => "remove_alias"
    case RemoveImplication => "remove_implication"
    case Rename => "rename"
  }

  /** `tr("_", " ")`. */
  function UnderscoresToSpaces(s: string): (r: string)
    ensures |r| == |s|
    ensures forall i :: 0 <= i < |s| ==> r[i] == (if s[i] == '_' then ' ' else s[i])
  {
    seq(|s|, i requires 0 <= i < |s| => if s[i] == '_' then ' ' else s[i])
  }

  /** The DText line for one command; nil stands for the "Unknown command" error raised on an invalid
      line or a nil entry. `isSimpleTag` stands for `PostQuery.normalize(tag).is_simple_tag?`. */
  function CommandDtext(c: Command, isSimpleTag: string -> bool): (r: Option<string>)
    ensures r.None? <==> !Recognised(c)
    ensures c.MassUpdate? ==> r == Some("mass update {{" + c.query + "}} -> {{" + c.update + "}}")
    ensures c.TagCommand? && c.op == Nuke ==>
      r == Some(if isSimpleTag(c.tag) then "nuke [[" + c.tag + "]]" else "nuke {{" + c.tag + "}}")
    ensures c.TagCommand? && c.op != Nuke ==> r == Some(TagKeyword(c.op) + " [[" + c.tag + "]]")
    ensures c.ChangeCategory? ==> r == Some("category [[" + c.tag + "]] -> " + c.category)
  {
    match c
    case Pair(kind, a, b) => Some(UnderscoresToSpaces(PairSymbol(kind)) + " [[" + a + "]] -> [[" + b + "]]")
    case MassUpdate(q, u) => Some("mass update {{" + q + "}} -> {{" + u + "}}")
    case TagCommand(Nuke, t) => Some(if isSimpleTag(t) then "nuke [[" + t + "]]" else "nuke {{" + t + "}}")
    case TagCommand(op, t) => Some(TagKeyword(op) + " [[" + t + "]]")
    case ChangeCategory(t, cat) => Some("category [[" + t + "]] -> " + cat)
    case InvalidLine(_) => None
    case EmptyLine => None
  }

  /** The DText of a pair command spells the command with its script keyword. */
  lemma PairDtextUsesKeyword(kind: PairKind, a: string, b: string, isSimpleTag: string -> bool)
    ensures CommandDtext(Pair(kind, a, b), isSimpleTag)
         == Some(PairKeyword(kind) + " [[" + a + "]] -> [[" + b + "]]")
  {
    PairSymbolSpelling(kind);
  }

  /** The command symbol of a pair, with its underscores read as spaces, is its script keyword. */
  lemma PairSymbolSpelling(kind: PairKind)
    ensures UnderscoresToSpaces(PairSymbol(kind)) == PairKeyword(kind)
  {
    var s := PairSymbol(kind);
    var u := UnderscoresToSpaces(s);
    assert forall i :: 0 <= i < |s| ==> u[i] == PairKeyword(kind)[i];
  }

  /** `to_dtext`: the DText lines joined by "\n", or nil for the error an unrecognised command raises. */
  function ToDtext(cmds: seq<Command>, isSimpleTag: string -> bool): (r: Option<string>)
    ensures r.Some? <==> forall i :: 0 <= i < |cmds| ==> Recognised(cmds[i])
  {
    if exists i :: 0 <= i < |cmds| && !Recognised(cmds[i]) then None
    else Some(Join(seq(|cmds|, i requires 0 <= i < |cmds| => CommandDtext(cmds[i], isSimpleTag).value), "\n"))
  }

  /** Names without line breaks give one DText line per command, in order. */
  lemma DtextLines(cmds: seq<Command>, isSimpleTag: string -> bool)
    requires |cmds| >= 1 && ToDtext(cmds, isSimpleTag).Some?
    requires forall i :: 0 <= i < |cmds| ==> '\n' !in CommandDtext(cmds[i], isSimpleTag).value
    ensures |SplitOn(ToDtext(cmds, isSimpleTag).value, '\n')| == |cmds|
    ensures forall i :: 0 <= i < |cmds| ==>
      Some(SplitOn(ToDtext(cmds, isSimpleTag).value, '\n')[i]) == CommandDtext(cmds[i], isSimpleTag)
  {
    var lines := seq(|cmds|, i requires 0 <= i < |cmds| => CommandDtext(cmds[i], isSimpleTag).value);
    SplitJoin(lines, '\n');
  }

  // ---------------------------------------------------------------------------------------------
  // affected_tags

  /** The tags one command names; nil for an unrecognised command, for which the block of
      `affected_tags` yields nil. `tagNames` stands for `PostQuery.new(query).tag_names`. */
  function CommandTags(c: Command, tagNames: string -> seq<string>): (r: Option<seq<string>>)
    ensures r.None? <==> !Recognised(c)
  {
    match c
    case Pair(_, a, b) => Some([a, b])
    case MassUpdate(q, u) => Some(tagNames(q) + tagNames(u))
    case TagCommand(_, t) => Some(tagNames(t))
    case ChangeCategory(t, _) => Some([t])
    case InvalidLine(_) => None
    case EmptyLine => None
  }

  /** Some recognised command of `cmds` names tag `t`. */
  predicate Names(cmds: seq<Command>, tagNames: string -> seq<string>, t: string)
  {
    exists i :: 0 <= i < |cmds| && Recognised(cmds[i]) && t in CommandTags(cmds[i], tagNames).value
  }

  /** The tag names the `flat_map` collects, in order, with repeats. */
  function AllTags(cmds: seq<Command>, tagNames: string -> seq<string>): (r: seq<string>)
    ensures forall t :: t in r <==> Names(cmds, tagNames, t)
  {
    if cmds == [] then []
    else
      var rest := AllTags(cmds[1..], tagNames);
      NamesTail(cmds, tagNames);
      (if Recognised(cmds[0]) then CommandTags(cmds[0], tagNames).value else []) + rest
  }

  /** A tag is named by the first command or by one of the rest. */
  lemma NamesTail(cmds: seq<Command>, tagNames: string -> seq<string>)
    requires cmds != []
    ensures forall t :: Names(cmds, tagNames, t) <==>
      ((Recognised(cmds[0]) && t in CommandTags(cmds[0], tagNames).value) || Names(cmds[1..], tagNames, t))
  {
    forall t | Names(cmds, tagNames, t) && !(Recognised(cmds[0]) && t in CommandTags(cmds[0], tagNames).value)
      ensures Names(cmds[1..], tagNames, t)
    {
      var i :| 0 <= i < |cmds| && Recognised(cmds[i]) && t in CommandTags(cmds[i], tagNames).value;
      assert cmds[1..][i - 1] == cmds[i];
    }
    forall t | Names(cmds[1..], tagNames, t)
      ensures Names(cmds, tagNames, t)
    {
      var i :| 0 <= i < |cmds[1..]| && Recognised(cmds[1..][i]) && t in CommandTags(cmds[1..][i], tagNames).value;
      assert cmds[i + 1] == cmds[1..][i];
    }
  }

  /** What `affected_tags` returns or raises. The `flat_map` yields the names of the recognised
      commands and a nil for every other one; `sort` raises once it has to compare a nil with a name,
      while nils alone compare equal and `uniq` leaves `[nil]`. */
  datatype AffectedTagsResult = TagList(tags: seq<string>) | NilOnly | SortError

  /** `affected_tags`: every tag the commands name, sorted, each once. */
  function AffectedTags(cmds: seq<Command>, tagNames: string -> seq<string>): (r: AffectedTagsResult)
    ensures r.TagList? <==> forall i :: 0 <= i < |cmds| ==> Recognised(cmds[i])
    ensures r.NilOnly? <==>
      (exists i :: 0 <= i < |cmds| && !Recognised(cmds[i])) && forall t :: !Names(cmds, tagNames, t)
    ensures r.TagList? ==> forall i, j :: 0 <= i < j < |r.tags| ==> LexLess(r.tags[i], r.tags[j])
    ensures r.TagList? ==> forall t :: t in r.tags <==> Names(cmds, tagNames, t)
  {
    var all := AllTags(cmds, tagNames);
    if exists i :: 0 <= i < |cmds| && !Recognised(cmds[i]) then
      if all == [] then NilOnly
      else
        assert Names(cmds, tagNames, all[0]);
        SortError
    else
      SortedUniq(all);
      TagList(Uniq(Sort(all)))
  }

  /** `sort.uniq`: strictly increasing, with the same members. */
  lemma SortedUniq(xs: seq<string>)
    ensures forall i, j :: 0 <= i < j < |Uniq(Sort(xs))| ==> LexLess(Uniq(Sort(xs))[i], Uniq(Sort(xs))[j])
    ensures forall t :: t in Uniq(Sort(xs)) <==> t in xs
  {
    var sorted := Sort(xs);
    var r := Uniq(sorted);
    SubseqSorted(r, sorted);
    forall t ensures t in r <==> t in xs {
      if t in xs {
        assert t in multiset(sorted);
        var k :| 0 <= k < |sorted| && sorted[k] == t;
      }
      if t in r {
        var k :| 0 <= k < |r| && r[k] == t;
        assert t in multiset(xs);
      }
    }
  }

  /** A subsequence of a sorted sequence is sorted. */
  lemma {:induction false} SubseqSorted(r: seq<string>, xs: seq<string>)
    requires IsSubseq(r, xs) && Sorted(xs)
    ensures Sorted(r)
    ensures forall i, j :: 0 <= i < j < |r| && r[i] != r[j] ==> LexLess(r[i], r[j])
  {
    if xs != [] {
      if r != [] && r[0] == xs[0] && IsSubseq(r[1..], xs[1..]) {
        SubseqSorted(r[1..], xs[1..]);
        SubseqMembers(r[1..], xs[1..]);
        forall i, j | 0 <= i < j < |r| ensures LexLe(r[i], r[j]) {
          if i == 0 {
            assert r[j] == r[1..][j - 1];
            var k :| 0 <= k < |xs[1..]| && xs[1..][k] == r[j];
            assert xs[k + 1] == r[j];
          } else {
            assert r[i] == r[1..][i - 1] && r[j] == r[1..][j - 1];
          }
        }
      } else {
        SubseqSorted(r, xs[1..]);
      }
    }
  }

  lemma {:induction false} SubseqMembers<T>(r: seq<T>, xs: seq<T>)
    requires IsSubseq(r, xs)
    ensures forall i :: 0 <= i < |r| ==> r[i] in xs
  {
    if xs != [] {
      if r != [] && r[0] == xs[0] && IsSubseq(r[1..], xs[1..]) {
        SubseqMembers(r[1..], xs[1..]);
        forall i | 0 <= i < |r| ensures r[i] in xs {
          if i > 0 {
            assert r[i] == r[1..][i - 1];
          }
        }
      } else {
        SubseqMembers(r, xs[1..]);
      }
    }
  }

  // ---------------------------------------------------------------------------------------------
  // validate_script_length

  const ScriptTooLong :=
    "Bulk update request is too long (maximum size: 100 lines). Split your request into smaller chunks and try again."

  /** The error `validate_script_length` adds, if any. */
  function ValidateScriptLength(cmds: seq<Command>): (err: Option<string>)
    ensures err.Some? <==> |cmds| > MaximumScriptLength
    ensures err.Some? ==> err.value == ScriptTooLong
  {
    if |cmds| > MaximumScriptLength then Some(ScriptTooLong) else None
  }

  /** A script of at most 100 lines is never too long. */
  lemma ShortScriptAccepted(script: string, normalize: string -> string, isCategory: string -> bool)
    requires |SplitLines(script)| <= MaximumScriptLength
    ensures ValidateScriptLength(Commands(script, normalize, isCategory)).None?
  {
  }

  // ---------------------------------------------------------------------------------------------
  // is_tag_move_allowed?

  /** What the tag lookup reports about an existing tag. */
  datatype TagInfo = TagInfo(isArtist: bool, postCount: int, isEmpty: bool)

  /** `BulkUpdateRequestProcessor.is_tag_move_allowed?`: the antecedent is an existing, non-empty
      (`present?`) artist tag with fewer than 200 posts, and the consequent is missing, empty, or an
      artist tag with fewer than 200 posts. `findTag` stands for `Tag.find_by_name`. */
  function TagMoveAllowed(antecedent: string, consequent: string, normalize: string -> string,
                          findTag: string -> Option<TagInfo>): (ok: bool)
    ensures var a := findTag(normalize(antecedent));
      ok ==> a.Some? && !a.value.isEmpty && a.value.isArtist && a.value.postCount < MaximumBuilderMoveCount
    ensures var c := findTag(normalize(consequent));
      ok && c.Some? && !c.value.isEmpty ==> c.value.isArtist && c.value.postCount < MaximumBuilderMoveCount
    ensures var a, c := findTag(normalize(antecedent)), findTag(normalize(consequent));
      a.Some? && !a.value.isEmpty && a.value.isArtist && a.value.postCount < MaximumBuilderMoveCount
      && (c.None? || c.value.isEmpty || (c.value.isArtist && c.value.postCount < MaximumBuilderMoveCount))
      ==> ok
  {
    var a := findTag(normalize(antecedent));
    var c := findTag(normalize(consequent));
    var antecedentAllowed := a.Some? && !a.value.isEmpty && a.value.isArtist
      && a.value.postCount < MaximumBuilderMoveCount;
    var consequentAllowed := c.None? || c.value.isEmpty || (c.value.isArtist && c.value.postCount < MaximumBuilderMoveCount);
    antecedentAllowed && consequentAllowed
  }

  /** `is_tag_move_allowed?` on a request: every command is an alias or a rename that may be moved. */
  function RequestTagMoveAllowed(cmds: seq<Command>, normalize: string -> string,
                                 findTag: string -> Option<TagInfo>): (ok: bool)
    ensures ok <==> forall i :: 0 <= i < |cmds| ==>
      cmds[i].Pair? && (cmds[i].kind == CreateAlias || cmds[i].kind == Rename)
      && TagMoveAllowed(cmds[i].antecedent, cmds[i].consequent, normalize, findTag)
  {
    if cmds == [] then true
    else
      var c := cmds[0];
      var first := c.Pair? && (c.kind == CreateAlias || c.kind == Rename)
        && TagMoveAllowed(c.antecedent, c.consequent, normalize, findTag);
      var rest := RequestTagMoveAllowed(cmds[1..], normalize, findTag);
      assert forall i :: 1 <= i < |cmds| ==> cmds[i] == cmds[1..][i - 1];
      first && rest
  }

  /** Any other command in a request takes the decision away from builders. */
  lemma OtherCommandDisallows(cmds: seq<Command>, i: nat, normalize: string -> string,
                              findTag: string -> Option<TagInfo>)
    requires i < |cmds| && !(cmds[i].Pair? && (cmds[i].kind == CreateAlias || cmds[i].kind == Rename))
    ensures !RequestTagMoveAllowed(cmds, normalize, findTag)
  {
  }
}
