/** Value types and small string and sequence operations that stand in for the Ruby, ActiveSupport and
    JavaScript built-ins the modelled code relies on: nil, `present?`/`blank?`, `delete_suffix`, `join`,
    `uniq`, `sort` and `CGI.escapeHTML`. */
module Common {

  /** A value that may be nil. */
  datatype Option<+T> = None | Some(value: T)

  /** Ruby's `a || b` on values that are either nil or a string: the first non-nil one (an empty string is
      truthy in Ruby, so it is kept). */
  function Or<T>(a: Option<T>, b: Option<T>): Option<T>
  {
    if a.Some? then a else b
  }

  /** `a || b || c` on values that may be nil: the first that is not nil. */
  function Or3<T>(a: Option<T>, b: Option<T>, c: Option<T>): (r: Option<T>)
    ensures a.Some? ==> r == a
    ensures a.None? && b.Some? ==> r == b
    ensures a.None? && b.None? ==> r == c
  {
    Or(Or(a, b), c)
  }

  /** `"#{x}"` for a value that may be nil: nil interpolates as "". */
  function Interp(o: Option<string>): string
  {
    if o.Some? then o.value else ""
  }

  // ---------------------------------------------------------------------------------------------
  // Whitespace, blank? and present?

  /** Unicode White_Space: the characters matched by the POSIX bracket `[[:space:]]` on a Unicode string,
      which ActiveSupport's `blank?` and the script parser's whitespace collapsing both use. */
  predicate IsSpace(c: char)
  {
    c == ' ' || '\t' <= c <= '\r' || c == '\U{0085}' || c == '\U{00A0}' || c == '\U{1680}'
    || '\U{2000}' <= c <= '\U{200A}' || c == '\U{2028}' || c == '\U{2029}' || c == '\U{202F}'
    || c == '\U{205F}' || c == '\U{3000}'
  }

  /** The characters `String#strip` removes: NUL, tab, line feed, vertical tab, form feed, carriage
      return and space. */
  predicate StripSpace(c: char)
  {
    c == '\0' || '\t' <= c <= '\r' || c == ' '
  }

  /** `rstrip`: the longest prefix that does not end in whitespace. */
  function StripRight(s: string): (r: string)
    ensures |r| <= |s| && r == s[..|r|]
    ensures r == [] || !StripSpace(r[|r| - 1])
    ensures forall i :: |r| <= i < |s| ==> StripSpace(s[i])
  {
    if s != [] && StripSpace(s[|s| - 1]) then StripRight(s[..|s| - 1]) else s
  }

  /** `lstrip`: what follows the leading whitespace. */
  function StripLeft(s: string): (r: string)
    ensures |r| <= |s| && r == s[|s| - |r|..]
    ensures r == [] || !StripSpace(r[0])
    ensures forall i :: 0 <= i < |s| - |r| ==> StripSpace(s[i])
  {
    if s != [] && StripSpace(s[0]) then StripLeft(s[1..]) else s
  }

  /** `s.blank?`: empty or only whitespace. */
  predicate IsBlank(s: string)
  {
    forall i :: 0 <= i < |s| ==> IsSpace(s[i])
  }

  /** `x.present?` for a value that is nil or a string. */
  predicate Present(o: Option<string>)
  {
    o.Some? && !IsBlank(o.value)
  }

  // ---------------------------------------------------------------------------------------------
  // Prefixes, suffixes, substrings

  predicate StartsWith<T(==)>(s: seq<T>, p: seq<T>)
  {
    |p| <= |s| && s[..|p|] == p
  }

  predicate EndsWith<T(==)>(s: seq<T>, p: seq<T>)
  {
    |p| <= |s| && s[|s| - |p|..] == p
  }

  /** `s.delete_suffix(suffix)`: removes one trailing copy of `suffix`, if there is one. */
  function DeleteSuffix(s: string, suffix: string): (r: string)
    ensures EndsWith(s, suffix) ==> r + suffix == s
    ensures !EndsWith(s, suffix) ==> r == s
  {
    if EndsWith(s, suffix) then s[..|s| - |suffix|] else s
  }

  /** `s.delete_prefix(prefix)`: removes one leading copy of `prefix`, if there is one. */
  function DeletePrefix(s: string, prefix: string): (r: string)
    ensures StartsWith(s, prefix) ==> prefix + r == s
    ensures !StartsWith(s, prefix) ==> r == s
  {
    if StartsWith(s, prefix) then s[|prefix|..] else s
  }

  /** `s.include?(sub)`. */
  predicate Contains(s: string, sub: string)
    ensures Contains(s, sub) ==> |sub| <= |s|
    decreases |s|
  {
    StartsWith(s, sub) || (|s| > 0 && Contains(s[1..], sub))
  }

  /** The head and the tail of a concatenation whose left part is not empty. */
  lemma ConsAppend<T>(a: seq<T>, b: seq<T>)
    requires a != []
    ensures (a + b)[0] == a[0] && (a + b)[1..] == a[1..] + b
    ensures |a| > 1 ==> (a + b)[1] == a[1]
    ensures |a| == 1 && b != [] ==> (a + b)[1] == b[0]
  {
  }

  /** An occurrence of `sub` at position `k` makes `s` contain it. */
  lemma {:induction false} ContainsAt(s: string, sub: string, k: nat)
    requires k + |sub| <= |s| && s[k..k + |sub|] == sub
    ensures Contains(s, sub)
  {
    if k == 0 {
      assert s[..|sub|] == sub;
    } else {
      assert s[1..][k - 1..k - 1 + |sub|] == s[k..k + |sub|];
      ContainsAt(s[1..], sub, k - 1);
    }
  }

  /** Length of the run of characters satisfying `p` that `s` starts with. */
  function Run(s: string, p: char -> bool): (n: nat)
    ensures n <= |s|
    ensures forall i :: 0 <= i < n ==> p(s[i])
    ensures n < |s| ==> !p(s[n])
  {
    if s != [] && p(s[0]) then 1 + Run(s[1..], p) else 0
  }

  /** A run is determined by where the first character failing `p` sits. */
  lemma {:induction false} RunExact(s: string, p: char -> bool, k: nat)
    requires k <= |s|
    requires forall i :: 0 <= i < k ==> p(s[i])
    requires k < |s| ==> !p(s[k])
    ensures Run(s, p) == k
  {
    if k > 0 {
      RunExact(s[1..], p, k - 1);
    }
  }

  /** Appending text that starts with a character failing `p` leaves the run unchanged. */
  lemma {:induction false} RunAppend(s: string, x: string, p: char -> bool)
    requires x != [] && !p(x[0])
    ensures Run(s + x, p) == Run(s, p)
  {
    if s == [] {
      assert s + x == x;
    } else {
      assert (s + x)[0] == s[0];
      assert (s + x)[1..] == s[1..] + x;
      RunAppend(s[1..], x, p);
    }
  }

  /** ASCII letter case folding, used for the case-insensitive keywords of the script language and for
      the lowercased tag category. */
  function LowerChar(c: char): char
  {
    if 'A' <= c <= 'Z' then (c as int + 32) as char else c
  }

  function Lower(s: string): (r: string)
    ensures |r| == |s|
    ensures forall i :: 0 <= i < |s| ==> r[i] == LowerChar(s[i])
  {
    if s == [] then [] else [LowerChar(s[0])] + Lower(s[1..])
  }

  // ---------------------------------------------------------------------------------------------
  // join

  /** `parts.join` (no separator). */
  function Concat(parts: seq<string>): string
  {
    if parts == [] then "" else parts[0] + Concat(parts[1..])
  }

  lemma {:induction false} ConcatAppend(a: seq<string>, b: seq<string>)
    ensures Concat(a + b) == Concat(a) + Concat(b)
  {
    if a != [] {
      assert (a + b)[1..] == a[1..] + b;
      ConcatAppend(a[1..], b);
    } else {
      assert a + b == b;
    }
  }

  /** `parts.join(sep)`. */
  function Join(parts: seq<string>, sep: string): string
  {
    if |parts| == 0 then "" else if |parts| == 1 then parts[0] else parts[0] + sep + Join(parts[1..], sep)
  }

  /** Wrapping `x` in `b`..`c` and then in `a`..`d` is wrapping it in `a + b`..`c + d`. */
  lemma Wrap<T>(a: seq<T>, b: seq<T>, x: seq<T>, c: seq<T>, d: seq<T>)
    ensures a + (b + x + c) + d == (a + b) + x + (c + d)
  {
  }

  /** Splits `s` at every occurrence of `c`, keeping empty pieces: the exact inverse of joining with `[c]`. */
  function SplitOn(s: string, c: char): (r: seq<string>)
    ensures |r| >= 1
    decreases |s|
  {
    if s == [] then [""]
    else if s[0] == c then [""] + SplitOn(s[1..], c)
    else var rest := SplitOn(s[1..], c); [[s[0]] + rest[0]] + rest[1..]
  }

  lemma {:induction false} SplitOnPrefix(w: string, s: string, c: char)
    requires c !in w
    ensures SplitOn(w + s, c) == [w + SplitOn(s, c)[0]] + SplitOn(s, c)[1..]
    decreases |w|
  {
    if w != [] {
      assert (w + s)[0] == w[0];
      assert (w + s)[1..] == w[1..] + s;
      SplitOnPrefix(w[1..], s, c);
      assert [w[0]] + (w[1..] + SplitOn(s, c)[0]) == w + SplitOn(s, c)[0];
    } else {
      assert w + s == s;
      var r := SplitOn(s, c);
      assert r == [r[0]] + r[1..];
      assert w + r[0] == r[0];
    }
  }

  /** Joining lines that do not contain `c` with `c` and splitting at `c` gives the lines back. */
  lemma {:induction false} SplitJoin(lines: seq<string>, c: char)
    requires |lines| >= 1
    requires forall i :: 0 <= i < |lines| ==> c !in lines[i]
    ensures SplitOn(Join(lines, [c]), c) == lines
  {
    if |lines| == 1 {
      SplitOnPrefix(lines[0], "", c);
      assert lines[0] + "" == lines[0];
    } else {
      var rest := Join(lines[1..], [c]);
      SplitJoin(lines[1..], c);
      assert Join(lines, [c]) == lines[0] + ([c] + rest);
      SplitOnPrefix(lines[0], [c] + rest, c);
      assert ([c] + rest)[1..] == rest;
      assert SplitOn([c] + rest, c) == [""] + lines[1..];
      assert lines[0] + "" == lines[0];
    }
  }

  /** Splitting at `c` and joining with `c` gives the string back. */
  lemma {:induction false} JoinSplit(s: string, c: char)
    ensures Join(SplitOn(s, c), [c]) == s
    decreases |s|
  {
    if s != [] {
      var rest := SplitOn(s[1..], c);
      JoinSplit(s[1..], c);
      if s[0] == c {
        assert ([""] + rest)[1..] == rest;
      } else {
        var r := [[s[0]] + rest[0]] + rest[1..];
        assert r[1..] == rest[1..];
        if |rest| > 1 {
          assert Join(rest, [c]) == rest[0] + [c] + Join(rest[1..], [c]);
        }
      }
    }
  }

  /** `gsub(c, sub)` for a single character `c`: each `c` written as `sub`. */
  function Replace(s: string, c: char, sub: string): (r: string)
    ensures c !in sub ==> c !in r
  {
    if s == [] then "" else (if s[0] == c then sub else [s[0]]) + Replace(s[1..], c, sub)
  }

  /** Replacing `c` by `sub` is splitting at `c` and joining the pieces with `sub`: every other character
      is kept, in order, and every `c` becomes exactly one `sub`. */
  lemma {:induction false} ReplaceSplitJoin(s: string, c: char, sub: string)
    ensures Replace(s, c, sub) == Join(SplitOn(s, c), sub)
    decreases |s|
  {
    if s != [] {
      var rest := SplitOn(s[1..], c);
      ReplaceSplitJoin(s[1..], c, sub);
      if s[0] == c {
        assert ([""] + rest)[1..] == rest;
      } else {
        var r := [[s[0]] + rest[0]] + rest[1..];
        assert r[1..] == rest[1..];
        if |rest| > 1 {
          assert Join(rest, sub) == rest[0] + sub + Join(rest[1..], sub);
        }
      }
    }
  }

  lemma {:induction false} ReplaceAppend(a: string, b: string, c: char, sub: string)
    ensures Replace(a + b, c, sub) == Replace(a, c, sub) + Replace(b, c, sub)
  {
    if a == [] {
      assert a + b == b;
    } else {
      var h := if a[0] == c then sub else [a[0]];
      var x, y := Replace(a[1..], c, sub), Replace(b, c, sub);
      assert Replace(a + b, c, sub) == h + (x + y) by {
        ConsAppend(a, b);
        ReplaceCons(a + b, c, sub);
        ReplaceAppend(a[1..], b, c, sub);
      }
      assert Replace(a, c, sub) == h + x by {
        ReplaceCons(a, c, sub);
      }
      assert h + (x + y) == (h + x) + y;
    }
  }

  lemma ReplaceCons(s: string, c: char, sub: string)
    requires s != []
    ensures Replace(s, c, sub) == (if s[0] == c then sub else [s[0]]) + Replace(s[1..], c, sub)
  {
  }

  /** Text without `c` passes through unchanged. */
  lemma {:induction false} ReplaceAbsent(s: string, c: char, sub: string)
    requires c !in s
    ensures Replace(s, c, sub) == s
  {
    if s != [] {
      ReplaceAbsent(s[1..], c, sub);
      assert s == [s[0]] + s[1..];
    }
  }

  /** The pieces of a split never contain the separator, nor anything the string did not contain. */
  lemma {:induction false} SplitOnPieces(s: string, c: char, d: char)
    requires d !in s
    ensures forall i :: 0 <= i < |SplitOn(s, c)| ==> c !in SplitOn(s, c)[i] && d !in SplitOn(s, c)[i]
    decreases |s|
  {
    if s != [] {
      SplitOnPieces(s[1..], c, d);
    }
  }

  // ---------------------------------------------------------------------------------------------
  // CGI.escapeHTML with its fixed five-character table, and the decoding that undoes it

  function EscapeChar(c: char): string
  {
    match c
    case '&' => "&amp;"
    case '<' => "&lt;"
    case '>' => "&gt;"
    case '"' => "&quot;"
    case '\'' => "&#39;"
    case _ => [c]
  }

  predicate IsMarkupChar(c: char)
  {
    c == '<' || c == '>' || c == '"' || c == '\''
  }

  /** `CGI.escapeHTML(s)`. The result contains no character that could open or close a tag or an
      attribute value. */
  function EscapeHtml(s: string): (r: string)
    ensures forall i :: 0 <= i < |r| ==> !IsMarkupChar(r[i])
    ensures |r| >= |s|
  {
    if s == [] then "" else EscapeChar(s[0]) + EscapeHtml(s[1..])
  }

  /** Decodes the five entities that `EscapeHtml` produces; any other text is kept as it is. */
  function UnescapeHtml(s: string): string
    decreases |s|
  {
    if s == [] then ""
    else if StartsWith(s, "&amp;") then "&" + UnescapeHtml(s[5..])
    else if StartsWith(s, "&lt;") then "<" + UnescapeHtml(s[4..])
    else if StartsWith(s, "&gt;") then ">" + UnescapeHtml(s[4..])
    else if StartsWith(s, "&quot;") then "\"" + UnescapeHtml(s[6..])
    else if StartsWith(s, "&#39;") then "'" + UnescapeHtml(s[5..])
    else [s[0]] + UnescapeHtml(s[1..])
  }

  lemma {:induction false} EscapeAppend(a: string, b: string)
    ensures EscapeHtml(a + b) == EscapeHtml(a) + EscapeHtml(b)
  {
    if a != [] {
      assert (a + b)[0] == a[0];
      assert (a + b)[1..] == a[1..] + b;
      EscapeAppend(a[1..], b);
    } else {
      assert a + b == b;
    }
  }

  /** Decoding the escape of one character followed by any text gives that character back. */
  lemma UnescapeEscapeChar(c: char, rest: string)
    ensures UnescapeHtml(EscapeChar(c) + rest) == [c] + UnescapeHtml(rest)
  {
    if c == '&' || c == '<' || c == '>' || c == '"' || c == '\'' {
      UnescapeEscapeSpecial(c, rest);
    } else {
      var t := EscapeChar(c) + rest;
      assert t[0] == c && t[1..] == rest;
      NoEntityAt(t);
    }
  }

  /** Text that does not start with "&" does not start with an entity. */
  lemma NoEntityAt(t: string)
    requires t != [] && t[0] != '&'
    ensures !StartsWith(t, "&amp;") && !StartsWith(t, "&lt;") && !StartsWith(t, "&gt;")
    ensures !StartsWith(t, "&quot;") && !StartsWith(t, "&#39;")
  {
  }

  lemma UnescapeEscapeSpecial(c: char, rest: string)
    requires c == '&' || c == '<' || c == '>' || c == '"' || c == '\''
    ensures UnescapeHtml(EscapeChar(c) + rest) == [c] + UnescapeHtml(rest)
  {
    if c == '&' {
      UnescapeAmp(rest);
    } else if c == '<' {
      UnescapeLt(rest);
    } else if c == '>' {
      UnescapeGt(rest);
    } else if c == '"' {
      UnescapeQuot(rest);
    } else {
      UnescapeApos(rest);
    }
  }

  lemma UnescapeAmp(rest: string)
    ensures UnescapeHtml("&amp;" + rest) == "&" + UnescapeHtml(rest)
  {
    var t := "&amp;" + rest;
    assert t[..5] == "&amp;" && t[5..] == rest;
  }

  lemma UnescapeLt(rest: string)
    ensures UnescapeHtml("&lt;" + rest) == "<" + UnescapeHtml(rest)
  {
    var t := "&lt;" + rest;
    assert t[..4] == "&lt;" && t[4..] == rest && t[1] == 'l';
  }

  lemma UnescapeGt(rest: string)
    ensures UnescapeHtml("&gt;" + rest) == ">" + UnescapeHtml(rest)
  {
    var t := "&gt;" + rest;
    assert t[..4] == "&gt;" && t[4..] == rest && t[1] == 'g';
  }

  lemma UnescapeQuot(rest: string)
    ensures UnescapeHtml("&quot;" + rest) == "\"" + UnescapeHtml(rest)
  {
    var t := "&quot;" + rest;
    assert t[..6] == "&quot;" && t[6..] == rest && t[1] == 'q';
  }

  lemma UnescapeApos(rest: string)
    ensures UnescapeHtml("&#39;" + rest) == "'" + UnescapeHtml(rest)
  {
    var t := "&#39;" + rest;
    assert t[..5] == "&#39;" && t[5..] == rest && t[1] == '#';
  }

  /** Escaping loses nothing: decoding the escaped text gives the original text back. */
  lemma {:induction false} UnescapeEscape(s: string)
    ensures UnescapeHtml(EscapeHtml(s)) == s
  {
    if s != [] {
      UnescapeEscape(s[1..]);
      UnescapeEscapeChar(s[0], EscapeHtml(s[1..]));
      assert s == [s[0]] + s[1..];
    }
  }

  // ---------------------------------------------------------------------------------------------
  // uniq

  /** `r` can be obtained from `xs` by dropping elements: the order of what is kept is the order in `xs`. */
  ghost predicate IsSubseq<T>(r: seq<T>, xs: seq<T>)
  {
    if xs == [] then r == []
    else (r != [] && r[0] == xs[0] && IsSubseq(r[1..], xs[1..])) || IsSubseq(r, xs[1..])
  }

  /** The set of keys of the elements of `xs`. */
  ghost function KeySet<T, K>(xs: seq<T>, key: T -> K): set<K>
  {
    if xs == [] then {} else {key(xs[0])} + KeySet(xs[1..], key)
  }

  /** A key is in the key set exactly when some element carries it. */
  lemma {:induction false} KeySetMember<T, K>(xs: seq<T>, key: T -> K, k: K)
    ensures k in KeySet(xs, key) <==> exists i :: 0 <= i < |xs| && key(xs[i]) == k
  {
    if xs != [] {
      KeySetMember(xs[1..], key, k);
      if k in KeySet(xs[1..], key) {
        var i :| 0 <= i < |xs[1..]| && key(xs[1..][i]) == k;
        assert key(xs[i + 1]) == k;
      }
      if exists i :: 0 <= i < |xs| && key(xs[i]) == k {
        var i :| 0 <= i < |xs| && key(xs[i]) == k;
        if i > 0 {
          assert key(xs[1..][i - 1]) == k;
        }
      }
    }
  }

  /** The first element of `xs` satisfying `p`, by its index: `xs.find(&p)`. */
  function FindIndex<T>(xs: seq<T>, p: T -> bool): (r: Option<nat>)
    ensures r.Some? ==> r.value < |xs| && p(xs[r.value]) && forall j :: 0 <= j < r.value ==> !p(xs[j])
    ensures r.None? ==> forall j :: 0 <= j < |xs| ==> !p(xs[j])
  {
    if xs == [] then None
    else if p(xs[0]) then Some(0)
    else
      var t := FindIndex(xs[1..], p);
      if t.Some? then Some(t.value + 1) else None
  }

  /** The first element of `xs` whose key is `k`, if any. */
  function FirstWithKey<T, K(==)>(xs: seq<T>, key: T -> K, k: K): (r: Option<T>)
    ensures r.Some? ==> r.value in xs && key(r.value) == k
    ensures r.None? <==> k !in KeySet(xs, key)
  {
    if xs == [] then None else if key(xs[0]) == k then Some(xs[0]) else FirstWithKey(xs[1..], key, k)
  }

  function UniqFrom<T, K(==)>(xs: seq<T>, key: T -> K, seen: set<K>): (r: seq<T>)
    ensures IsSubseq(r, xs)
    ensures KeySet(r, key) == KeySet(xs, key) - seen
    ensures forall i, j :: 0 <= i < j < |r| ==> key(r[i]) != key(r[j])
    ensures forall i :: 0 <= i < |r| ==> FirstWithKey(xs, key, key(r[i])) == Some(r[i])
  {
    if xs == [] then []
    else if key(xs[0]) in seen then
      var r := UniqFrom(xs[1..], key, seen);
      KeysNotIn(r, key, seen);
      r
    else
      var tail := UniqFrom(xs[1..], key, seen + {key(xs[0])});
      KeysNotIn(tail, key, seen + {key(xs[0])});
      [xs[0]] + tail
  }

  lemma {:induction false} KeysNotIn<T, K>(r: seq<T>, key: T -> K, s: set<K>)
    requires KeySet(r, key) !! s
    ensures forall i :: 0 <= i < |r| ==> key(r[i]) !in s
  {
    if r != [] {
      KeysNotIn(r[1..], key, s);
      forall i | 0 < i < |r| ensures key(r[i]) !in s {
        assert r[i] == r[1..][i - 1];
      }
    }
  }

  /** The element at index `i` is the first of `xs` with its key. */
  predicate IsFirstOfKey<T, K(==)>(xs: seq<T>, key: T -> K, i: nat)
    requires i < |xs|
  {
    forall j :: 0 <= j < i ==> key(xs[j]) != key(xs[i])
  }

  /** The elements from index `n` on that are the first of `xs` with their key, in index order. */
  function FirstsFrom<T, K(==)>(xs: seq<T>, key: T -> K, n: nat): seq<T>
    requires n <= |xs|
    decreases |xs| - n
  {
    if n == |xs| then []
    else (if IsFirstOfKey(xs, key, n) then [xs[n]] else []) + FirstsFrom(xs, key, n + 1)
  }

  /** Reference definition of `uniq`, by index: `xs[i]` is kept iff no earlier element has its key. */
  function FirstOfKeys<T, K(==)>(xs: seq<T>, key: T -> K): seq<T>
  {
    FirstsFrom(xs, key, 0)
  }

  lemma {:induction false} KeySetAppend<T, K>(a: seq<T>, b: seq<T>, key: T -> K)
    ensures KeySet(a + b, key) == KeySet(a, key) + KeySet(b, key)
  {
    if a != [] {
      KeySetAppend(a[1..], b, key);
      assert (a + b)[0] == a[0] && (a + b)[1..] == a[1..] + b;
    } else {
      assert a + b == b;
    }
  }

  /** Deduplicating what follows index `n`, with the keys before it already seen, keeps exactly the
      elements that are first with their key. */
  lemma {:induction false} UniqFromFirsts<T, K>(xs: seq<T>, key: T -> K, n: nat)
    requires n <= |xs|
    ensures UniqFrom(xs[n..], key, KeySet(xs[..n], key)) == FirstsFrom(xs, key, n)
    decreases |xs| - n
  {
    if n == |xs| {
      assert xs[n..] == [];
    } else {
      var seen, rest := KeySet(xs[..n], key), xs[n..];
      UniqFromFirsts(xs, key, n + 1);
      SeenSnoc(xs, key, n);
      assert rest[0] == xs[n] && rest[1..] == xs[n + 1..];
      UniqFromCons(rest, key, seen);
      FirstsCons(xs, key, n);
      if IsFirstOfKey(xs, key, n) {
        assert UniqFrom(rest, key, seen) == [xs[n]] + UniqFrom(xs[n + 1..], key, KeySet(xs[..n + 1], key));
      } else {
        assert seen == KeySet(xs[..n + 1], key);
        assert UniqFrom(rest, key, seen) == UniqFrom(xs[n + 1..], key, KeySet(xs[..n + 1], key));
      }
    }
  }

  lemma UniqFromCons<T, K>(xs: seq<T>, key: T -> K, seen: set<K>)
    requires xs != []
    ensures UniqFrom(xs, key, seen)
      == if key(xs[0]) in seen then UniqFrom(xs[1..], key, seen)
         else [xs[0]] + UniqFrom(xs[1..], key, seen + {key(xs[0])})
  {
  }

  lemma FirstsCons<T, K>(xs: seq<T>, key: T -> K, n: nat)
    requires n < |xs|
    ensures FirstsFrom(xs, key, n) == (if IsFirstOfKey(xs, key, n) then [xs[n]] else []) + FirstsFrom(xs, key, n + 1)
  {
  }

  /** The keys seen up to and including index `n` add the key of `xs[n]`, which is new iff `xs[n]` is the
      first with it. */
  lemma SeenSnoc<T, K>(xs: seq<T>, key: T -> K, n: nat)
    requires n < |xs|
    ensures KeySet(xs[..n + 1], key) == KeySet(xs[..n], key) + {key(xs[n])}
    ensures key(xs[n]) in KeySet(xs[..n], key) <==> !IsFirstOfKey(xs, key, n)
  {
    assert xs[..n + 1] == xs[..n] + [xs[n]];
    KeySetAppend(xs[..n], [xs[n]], key);
    assert KeySet([xs[n]], key) == {key(xs[n])};
    KeySetMember(xs[..n], key, key(xs[n]));
    if !IsFirstOfKey(xs, key, n) {
      var j :| 0 <= j < n && key(xs[j]) == key(xs[n]);
      assert key(xs[..n][j]) == key(xs[n]);
    }
  }

  /** `xs.uniq { key }`: keeps, in order, the first element for each key. */
  function UniqBy<T, K(==)>(xs: seq<T>, key: T -> K): (r: seq<T>)
    ensures IsSubseq(r, xs)
    ensures KeySet(r, key) == KeySet(xs, key)
    ensures forall i, j :: 0 <= i < j < |r| ==> key(r[i]) != key(r[j])
    ensures forall i :: 0 <= i < |r| ==> FirstWithKey(xs, key, key(r[i])) == Some(r[i])
    ensures r == FirstOfKeys(xs, key)
  {
    UniqFromFirsts(xs, key, 0);
    assert xs[0..] == xs && xs[..0] == [];
    UniqFrom(xs, key, {})
  }

  function Identity<T>(x: T): T
  {
    x
  }

  /** `xs.uniq`. */
  function Uniq<T(==)>(xs: seq<T>): (r: seq<T>)
    ensures IsSubseq(r, xs)
    ensures forall i, j :: 0 <= i < j < |r| ==> r[i] != r[j]
    ensures forall i :: 0 <= i < |xs| ==> xs[i] in r
    ensures forall i :: 0 <= i < |r| ==> r[i] in xs
    ensures r == FirstOfKeys(xs, Identity)
  {
    var r := UniqBy(xs, Identity);
    KeySetIdentity(r);
    KeySetIdentity(xs);
    r
  }

  lemma {:induction false} KeySetIdentity<T>(xs: seq<T>)
    ensures forall i :: 0 <= i < |xs| ==> xs[i] in KeySet(xs, Identity)
    ensures forall x :: x in KeySet(xs, Identity) ==> x in xs
  {
    if xs != [] {
      KeySetIdentity(xs[1..]);
      assert xs == [xs[0]] + xs[1..];
      forall i | 0 < i < |xs| ensures xs[i] in KeySet(xs, Identity) {
        assert xs[i] == xs[1..][i - 1];
      }
    }
  }

  // ---------------------------------------------------------------------------------------------
  // String order and sort

  /** The strict order in which Ruby's `String#<=>` and JavaScript's `<` on strings put two strings:
      lexicographic by character. */
  predicate LexLess(a: string, b: string)
  {
    if a == [] then b != []
    else b != [] && (a[0] < b[0] || (a[0] == b[0] && LexLess(a[1..], b[1..])))
  }

  predicate LexLe(a: string, b: string)
  {
    a == b || LexLess(a, b)
  }

  lemma {:induction false} LexLessIrreflexive(a: string)
    ensures !LexLess(a, a)
  {
    if a != [] {
      LexLessIrreflexive(a[1..]);
    }
  }

  lemma {:induction false} LexLessAsymmetric(a: string, b: string)
    requires LexLess(a, b)
    ensures !LexLess(b, a)
  {
    if a != [] && b != [] && a[0] == b[0] {
      LexLessAsymmetric(a[1..], b[1..]);
    }
  }

  lemma {:induction false} LexLessTransitive(a: string, b: string, c: string)
    requires LexLess(a, b) && LexLess(b, c)
    ensures LexLess(a, c)
  {
    if a != [] && a[0] == b[0] && b[0] == c[0] {
      LexLessTransitive(a[1..], b[1..], c[1..]);
    }
  }

  lemma {:induction false} LexLessTotal(a: string, b: string)
    requires a != b
    ensures LexLess(a, b) || LexLess(b, a)
  {
    if a != [] && b != [] && a[0] == b[0] {
      assert a == [a[0]] + a[1..] && b == [b[0]] + b[1..];
      LexLessTotal(a[1..], b[1..]);
    }
  }

  lemma LexLeTransitive(a: string, b: string, c: string)
    requires LexLe(a, b) && LexLe(b, c)
    ensures LexLe(a, c)
  {
    if a != b && b != c {
      LexLessTransitive(a, b, c);
    }
  }

  predicate Sorted(s: seq<string>)
  {
    forall i, j :: 0 <= i < j < |s| ==> LexLe(s[i], s[j])
  }

  function Insert(x: string, s: seq<string>): (r: seq<string>)
    ensures multiset(r) == multiset(s) + multiset{x}
  {
    if s == [] then [x]
    else if LexLe(x, s[0]) then
      assert multiset([x] + s) == multiset{x} + multiset(s);
      [x] + s
    else
      assert s == [s[0]] + s[1..];
      [s[0]] + Insert(x, s[1..])
  }

  lemma {:induction false} InsertSorted(x: string, s: seq<string>)
    requires Sorted(s)
    ensures Sorted(Insert(x, s))
  {
    if s == [] {
    } else if LexLe(x, s[0]) {
      var r := [x] + s;
      forall i, j | 0 <= i < j < |r| ensures LexLe(r[i], r[j]) {
        if i == 0 {
          LexLeTransitive(x, s[0], s[j - 1]);
        } else {
          assert r[i] == s[i - 1] && r[j] == s[j - 1];
        }
      }
    } else {
      var tail := Insert(x, s[1..]);
      InsertSorted(x, s[1..]);
      LexLessTotal(x, s[0]);
      var r := [s[0]] + tail;
      assert r == Insert(x, s);
      forall i, j | 0 <= i < j < |r| ensures LexLe(r[i], r[j]) {
        if i == 0 {
          var y := tail[j - 1];
          assert y in multiset(tail);
          assert y in multiset(s[1..]) || y == x;
          if y != x {
            var k :| 0 <= k < |s[1..]| && s[1..][k] == y;
            assert s[k + 1] == y;
          }
        } else {
          assert r[i] == tail[i - 1] && r[j] == tail[j - 1];
        }
      }
    }
  }

  /** `s.sort` on strings. Sorting equal strings in any order gives the same sequence, so the lack of
      stability in Ruby's and JavaScript's sorts does not show. */
  function Sort(s: seq<string>): (r: seq<string>)
    ensures Sorted(r)
    ensures multiset(r) == multiset(s)
  {
    if s == [] then []
    else
      assert s == [s[0]] + s[1..];
      var t := Sort(s[1..]);
      InsertSorted(s[0], t);
      Insert(s[0], t)
  }
}
