/** The site-logo lookup of `IconHelper`: the canonical form of a site name, the table from site names
    to logo files, the choice between a logo and the globe icon, and the class string of an SVG icon. */
module IconHelper {
  import opened Common

  // ---------------------------------------------------------------------------------------------
  // Site names

  /** `String#downcase` on one character, as far as the replacement that follows can tell: ASCII
      letters, and the two characters outside ASCII whose lower case is in ASCII (KELVIN SIGN and LATIN
      CAPITAL LETTER I WITH DOT ABOVE). Every other character outside ASCII stays outside ASCII, where
      the replacement turns it into "-" whatever its lower case is. */
  function DowncaseChar(c: char): string
  {
    if c == '\U{212A}' then "k"
    else if c == '\U{0130}' then "i\U{0307}"
    else [LowerChar(c)]
  }

  function Downcase(s: string): string
  {
    if s == [] then "" else DowncaseChar(s[0]) + Downcase(s[1..])
  }

  /** The characters `[a-z0-9.]` a site name keeps. */
  predicate NameChar(c: char)
  {
    'a' <= c <= 'z' || '0' <= c <= '9' || c == '.'
  }

  /** `gsub(/[^a-z0-9.]/, "-")`. */
  function Dasherize(s: string): (r: string)
    ensures |r| == |s|
    ensures forall i :: 0 <= i < |s| ==> r[i] == (if NameChar(s[i]) then s[i] else '-')
  {
    seq(|s|, i requires 0 <= i < |s| => if NameChar(s[i]) then s[i] else '-')
  }

  predicate NoDoubleDash(s: string)
  {
    forall i :: 0 <= i < |s| - 1 ==> !(s[i] == '-' && s[i + 1] == '-')
  }

  /** The characters of `s` other than "-", in order. */
  function Letters(s: string): string
  {
    if s == [] then [] else (if s[0] == '-' then [] else [s[0]]) + Letters(s[1..])
  }

  /** `squeeze("-")`: each run of "-" becomes one "-". No two dashes are left side by side, and the
      first and last characters stay. */
  function Squeeze(s: string): (r: string)
    ensures NoDoubleDash(r)
    ensures |r| <= |s| && (s != [] ==> r != [] && r[0] == s[0] && r[|r| - 1] == s[|s| - 1])
  {
    if |s| <= 1 then s
    else
      var rest := Squeeze(s[1..]);
      if s[0] == '-' && s[1] == '-' then
        rest
      else
        var r := [s[0]] + rest;
        assert r[0] == s[0] && r[|r| - 1] == rest[|rest| - 1];
        ConsNoDoubleDash(s[0], rest);
        r
  }

  /** Squeezing removes only dashes: the other characters stay in order, and every character of the
      result comes from the input. */
  lemma {:induction false} SqueezeKeeps(s: string)
    ensures Letters(Squeeze(s)) == Letters(s)
    ensures forall i :: 0 <= i < |Squeeze(s)| ==> Squeeze(s)[i] in s
  {
    if |s| > 1 {
      var tail := s[1..];
      var rest := Squeeze(tail);
      SqueezeKeeps(tail);
      var h: string := if s[0] == '-' then [] else [s[0]];
      assert Letters(s) == h + Letters(tail);
      assert forall c :: c in tail ==> c in s;
      if s[0] == '-' && s[1] == '-' {
        assert Squeeze(s) == rest;
        assert h + Letters(tail) == Letters(tail);
      } else {
        var r := [s[0]] + rest;
        assert Squeeze(s) == r;
        assert r[1..] == rest;
        assert Letters(r) == h + Letters(rest);
        assert forall i :: 1 <= i < |r| ==> r[i] == rest[i - 1];
      }
    }
  }

  /** One step of `Squeeze`, by the first two characters. */
  lemma SqueezeCons(s: string)
    requires |s| > 1
    ensures Squeeze(s) == if s[0] == '-' && s[1] == '-' then Squeeze(s[1..]) else [s[0]] + Squeeze(s[1..])
  {
  }

  /** Squeezing works piece by piece wherever the cut does not fall inside a run of dashes. */
  lemma {:induction false} SqueezeAppend(a: string, b: string)
    requires a == [] || b == [] || a[|a| - 1] != '-' || b[0] != '-'
    ensures Squeeze(a + b) == Squeeze(a) + Squeeze(b)
  {
    if a == [] {
      assert a + b == b;
    } else if b != [] {
      var a' := a[1..];
      ConsAppend(a, b);
      SqueezeCons(a + b);
      if |a| > 1 {
        assert a'[|a'| - 1] == a[|a| - 1];
        SqueezeAppend(a', b);
        SqueezeCons(a);
      } else {
        assert a' + b == b;
      }
    } else {
      assert a + b == a;
    }
  }

  /** A run of dashes becomes one dash. */
  lemma {:induction false} SqueezeDashRun(w: string)
    requires w != [] && forall i :: 0 <= i < |w| ==> w[i] == '-'
    ensures Squeeze(w) == "-"
  {
    if |w| > 1 {
      SqueezeDashRun(w[1..]);
    }
  }

  /** A character put before a text without "--" makes none, unless both are dashes. */
  lemma ConsNoDoubleDash(c: char, rest: string)
    requires NoDoubleDash(rest) && (c == '-' ==> rest == [] || rest[0] != '-')
    ensures NoDoubleDash([c] + rest)
  {
    var r := [c] + rest;
    forall i | 0 <= i < |r| - 1 ensures !(r[i] == '-' && r[i + 1] == '-') {
      if i > 0 {
        assert r[i] == rest[i - 1] && r[i + 1] == rest[i];
      }
    }
  }

  /** A canonical site name: only `[a-z0-9.-]`, no "--", no "-" at either end. */
  predicate SiteName(s: string)
  {
    (forall i :: 0 <= i < |s| ==> NameChar(s[i]) || s[i] == '-')
    && NoDoubleDash(s)
    && (s != [] ==> s[0] != '-' && s[|s| - 1] != '-')
  }

  /** The name `external_site_icon` looks up:
      `downcase.gsub(/[^a-z0-9.]/, "-").squeeze("-").delete_prefix("-").delete_suffix("-")`. It is a
      canonical site name, and the letters, digits and dots of the dasherized name survive in order. */
  function NormalizeSiteName(siteName: string): (name: string)
    ensures SiteName(name)
    ensures Letters(name) == Letters(Dasherize(Downcase(siteName)))
  {
    var d := Dasherize(Downcase(siteName));
    var q := Squeeze(d);
    SqueezeKeeps(d);
    assert forall i :: 0 <= i < |q| ==> NameChar(q[i]) || q[i] == '-';
    var p := DeletePrefix(q, "-");
    var name := DeleteSuffix(p, "-");
    TrimDash(q);
    name
  }

  /** Taking one "-" off each end of a squeezed dasherized name leaves a canonical name with the same
      letters. */
  lemma TrimDash(q: string)
    requires NoDoubleDash(q) && forall i :: 0 <= i < |q| ==> NameChar(q[i]) || q[i] == '-'
    ensures var name := DeleteSuffix(DeletePrefix(q, "-"), "-");
      SiteName(name) && Letters(name) == Letters(q)
  {
    DropLeadingDash(q);
    DropTrailingDash(DeletePrefix(q, "-"));
  }

  lemma DropLeadingDash(q: string)
    requires NoDoubleDash(q) && forall i :: 0 <= i < |q| ==> NameChar(q[i]) || q[i] == '-'
    ensures var p := DeletePrefix(q, "-");
      && NoDoubleDash(p) && (forall i :: 0 <= i < |p| ==> NameChar(p[i]) || p[i] == '-')
      && (p != [] ==> p[0] != '-') && Letters(p) == Letters(q)
  {
    if StartsWith(q, "-") {
      var p := q[1..];
      assert DeletePrefix(q, "-") == p;
      assert q == [q[0]] + p;
      assert p != [] ==> q[0] == '-' && q[1] == p[0];
    }
  }

  lemma DropTrailingDash(p: string)
    requires NoDoubleDash(p) && forall i :: 0 <= i < |p| ==> NameChar(p[i]) || p[i] == '-'
    requires p != [] ==> p[0] != '-'
    ensures var name := DeleteSuffix(p, "-");
      SiteName(name) && Letters(name) == Letters(p)
  {
    if EndsWith(p, "-") {
      var name := p[..|p| - 1];
      assert DeleteSuffix(p, "-") == name;
      DropLastDash(p, name);
    }
  }

  /** Without its last "-", a text without "--" and not starting with "-" is a canonical name with
      the same letters. */
  lemma DropLastDash(p: string, name: string)
    requires NoDoubleDash(p) && forall i :: 0 <= i < |p| ==> NameChar(p[i]) || p[i] == '-'
    requires p != [] && p[0] != '-' && p[|p| - 1] == '-' && name == p[..|p| - 1]
    ensures SiteName(name) && Letters(name) == Letters(p)
  {
    var dash := [p[|p| - 1]];
    assert p == name + dash;
    LettersAppend(name, dash);
    assert Letters(dash) == [];
    assert |p| >= 2 && p[|p| - 2] == name[|name| - 1];
  }

  lemma {:induction false} LettersAppend(a: string, b: string)
    ensures Letters(a + b) == Letters(a) + Letters(b)
  {
    if a != [] {
      assert (a + b)[0] == a[0] && (a + b)[1..] == a[1..] + b;
      LettersAppend(a[1..], b);
      var h := if a[0] == '-' then "" else [a[0]];
      assert Letters(a + b) == h + Letters(a[1..] + b);
      assert h + (Letters(a[1..]) + Letters(b)) == (h + Letters(a[1..])) + Letters(b);
    } else {
      assert a + b == b;
    }
  }

  /** A canonical site name is its own normal form. */
  lemma SiteNameFixed(s: string)
    requires SiteName(s)
    ensures NormalizeSiteName(s) == s
  {
    DowncaseFixed(s);
    DasherizeFixed(s);
    SqueezeFixed(s);
    DashTrimFixed(s);
  }

  lemma DasherizeFixed(s: string)
    requires forall i :: 0 <= i < |s| ==> NameChar(s[i]) || s[i] == '-'
    ensures Dasherize(s) == s
  {
    var d := Dasherize(s);
    assert forall i :: 0 <= i < |s| ==> d[i] == s[i];
  }

  /** A text that neither starts nor ends with "-" loses nothing to the two deletions. */
  lemma DashTrimFixed(s: string)
    requires s != [] ==> s[0] != '-' && s[|s| - 1] != '-'
    ensures DeleteSuffix(DeletePrefix(s, "-"), "-") == s
  {
    assert !StartsWith(s, "-") by {
      if |s| >= 1 {
        assert s[..1][0] == s[0];
      }
    }
    assert !EndsWith(s, "-") by {
      if |s| >= 1 {
        assert s[|s| - 1..][0] == s[|s| - 1];
      }
    }
  }

  /** Normalising is idempotent. */
  lemma NormalizeSiteNameIdempotent(siteName: string)
    ensures NormalizeSiteName(NormalizeSiteName(siteName)) == NormalizeSiteName(siteName)
  {
    SiteNameFixed(NormalizeSiteName(siteName));
  }

  lemma {:induction false} DowncaseFixed(s: string)
    requires forall i :: 0 <= i < |s| ==> NameChar(s[i]) || s[i] == '-'
    ensures Downcase(s) == s
  {
    if s != [] {
      DowncaseFixed(s[1..]);
      assert DowncaseChar(s[0]) == [s[0]];
      assert s == [s[0]] + s[1..];
    }
  }

  lemma {:induction false} SqueezeFixed(s: string)
    requires NoDoubleDash(s)
    ensures Squeeze(s) == s
  {
    if |s| > 1 {
      var tail := s[1..];
      NoDoubleDashTail(s);
      SqueezeFixed(tail);
      assert !(s[0] == '-' && s[1] == '-');
      assert s == [s[0]] + tail;
    }
  }

  lemma NoDoubleDashTail(s: string)
    requires NoDoubleDash(s) && s != []
    ensures NoDoubleDash(s[1..])
  {
    var tail := s[1..];
    forall i | 0 <= i < |tail| - 1 ensures !(tail[i] == '-' && tail[i + 1] == '-') {
      assert tail[i] == s[i + 1] && tail[i + 1] == s[i + 2];
    }
  }

  /** On ASCII text, `downcase` lowers each letter and keeps everything else. */
  lemma {:induction false} DowncaseAscii(s: string)
    requires forall i :: 0 <= i < |s| ==> s[i] < '\U{0080}'
    ensures Downcase(s) == Lower(s)
  {
    if s != [] {
      DowncaseAscii(s[1..]);
    }
  }

  // ---------------------------------------------------------------------------------------------
  // SITE_ICONS

  const LogoSuffix := "-logo.png"

  /** The site name a logo file is filed under. */
  function LogoKey(basename: string): (key: string)
    ensures EndsWith(basename, LogoSuffix) ==> key + LogoSuffix == basename
    ensures !EndsWith(basename, LogoSuffix) ==> key == basename
  {
    DeleteSuffix(basename, LogoSuffix)
  }

  /** `SITE_ICONS`: the logo files' base names, sorted, turned into a hash from site name to file
      name; a later file with the same site name would win. */
  function SiteIcons(basenames: seq<string>): (icons: map<string, string>)
    ensures icons.Keys == set i | 0 <= i < |basenames| :: LogoKey(basenames[i])
    ensures forall k :: k in icons ==> icons[k] in basenames && LogoKey(icons[k]) == k
  {
    if basenames == [] then map[]
    else
      var init := basenames[..|basenames| - 1];
      var last := basenames[|basenames| - 1];
      var icons := SiteIcons(init)[LogoKey(last) := last];
      assert forall k :: k in icons ==> icons[k] in basenames by {
        assert forall b :: b in init ==> b in basenames;
      }
      assert icons.Keys == set i | 0 <= i < |basenames| :: LogoKey(basenames[i]) by {
        assert forall i :: 0 <= i < |init| ==> init[i] == basenames[i];
      }
      icons
  }

  /** Every logo file is found under its own site name. */
  lemma LogoLookup(basenames: seq<string>, i: nat)
    requires i < |basenames| && forall j :: 0 <= j < |basenames| ==> EndsWith(basenames[j], LogoSuffix)
    ensures LogoKey(basenames[i]) in SiteIcons(basenames)
    ensures SiteIcons(basenames)[LogoKey(basenames[i])] == basenames[i]
  {
    var icons := SiteIcons(basenames);
    var key := LogoKey(basenames[i]);
    assert key in icons;
    var f := icons[key];
    var j :| 0 <= j < |basenames| && basenames[j] == f;
    assert LogoKey(f) + LogoSuffix == f;
    assert key + LogoSuffix == basenames[i];
  }

  // ---------------------------------------------------------------------------------------------
  // external_site_icon

  /** What is rendered: an image from the logos directory, or an SVG icon from the sprite sheet. */
  datatype Icon = ImageIcon(filename: string) | SvgIcon(name: string)

  const Globe := SvgIcon("globe")

  /** `external_site_icon`: the logo filed under the normalised site name, else the globe icon. */
  function ExternalSiteIcon(siteName: string, icons: map<string, string>): (icon: Icon)
    ensures icon.ImageIcon? <==> NormalizeSiteName(siteName) in icons
    ensures icon.ImageIcon? ==> icon.filename in icons.Values
    ensures icon.SvgIcon? ==> icon == Globe
  {
    var name := NormalizeSiteName(siteName);
    if name in icons then ImageIcon(icons[name]) else Globe
  }

  /** A site whose name normalises to the name a logo file is filed under gets that logo. */
  lemma SiteLogoShown(basenames: seq<string>, i: nat, siteName: string)
    requires i < |basenames| && forall j :: 0 <= j < |basenames| ==> EndsWith(basenames[j], LogoSuffix)
    requires NormalizeSiteName(siteName) == LogoKey(basenames[i])
    ensures ExternalSiteIcon(siteName, SiteIcons(basenames)) == ImageIcon(basenames[i])
  {
    LogoLookup(basenames, i);
  }

  /** A logo file named "<site name>-logo.png" is shown for that site name. */
  lemma OwnNameShowsLogo(basenames: seq<string>, i: nat)
    requires i < |basenames| && forall j :: 0 <= j < |basenames| ==> EndsWith(basenames[j], LogoSuffix)
    requires SiteName(LogoKey(basenames[i]))
    ensures ExternalSiteIcon(LogoKey(basenames[i]), SiteIcons(basenames)) == ImageIcon(basenames[i])
  {
    SiteNameFixed(LogoKey(basenames[i]));
    SiteLogoShown(basenames, i, LogoKey(basenames[i]));
  }

  /** A site name no logo file is filed under gets the globe icon. */
  lemma UnknownSiteGlobe(basenames: seq<string>, siteName: string)
    requires forall j :: 0 <= j < |basenames| ==> LogoKey(basenames[j]) != NormalizeSiteName(siteName)
    ensures ExternalSiteIcon(siteName, SiteIcons(basenames)) == Globe
  {
    assert NormalizeSiteName(siteName) !in SiteIcons(basenames);
  }

  // ---------------------------------------------------------------------------------------------
  // svg_icon_tag

  /** A text whose last character is not whitespace. */
  predicate EndsInText(k: string)
  {
    k != [] && !StripSpace(k[|k| - 1])
  }

  /** Stripping the end of a text stops at a head that does not end in whitespace. */
  lemma {:induction false} StripRightAfter(head: string, tail: string)
    requires head != [] && !StripSpace(head[|head| - 1])
    ensures StripRight(head + tail) == head + StripRight(tail)
  {
    if tail != [] {
      var t := tail[..|tail| - 1];
      assert (head + tail)[..|head + tail| - 1] == head + t;
      if StripSpace(tail[|tail| - 1]) {
        StripRightAfter(head, t);
      }
    } else {
      assert head + tail == head;
    }
  }

  /** The part of an SVG icon's class string that comes before its own class. */
  function SvgHead(name: string): (head: string)
    ensures head != [] && head[0] == 'i' && head[|head| - 1] == 'n'
  {
    "icon svg-icon " + name + "-icon"
  }

  /** `"icon svg-icon #{name}-icon #{klass}".strip`, where a nil class interpolates as "". */
  function SvgClass(name: string, klass: Option<string>): string
  {
    StripLeft(StripRight(SvgHead(name) + " " + Interp(klass)))
  }

  /** The class string is the head, then a space and the class with its trailing whitespace removed,
      unless nothing but whitespace is left of it: a nil class leaves no trailing space. */
  lemma SvgClassShape(name: string, klass: Option<string>)
    ensures var r := SvgClass(name, klass);
      && StartsWith(r, SvgHead(name)) && EndsInText(r)
      && (klass.None? ==> r == SvgHead(name))
      && (klass.Some? && EndsInText(klass.value) ==> r == SvgHead(name) + " " + klass.value)
  {
    StripAfterHead(SvgHead(name), Interp(klass));
  }

  /** Stripping a text that starts and ends its head with a letter strips only what follows the head. */
  lemma StripAfterHead(head: string, k: string)
    requires head != [] && !StripSpace(head[0]) && head[|head| - 1] == 'n'
    ensures var r := StripLeft(StripRight(head + " " + k));
      && StartsWith(r, head) && EndsInText(r)
      && (k == [] ==> r == head)
      && (EndsInText(k) ==> r == head + " " + k)
  {
    var tail := " " + k;
    assert head + " " + k == head + tail;
    StripRightAfter(head, tail);
    var r := head + StripRight(tail);
    assert r[0] == head[0];
    assert r[..|head|] == head;
    SpacedClass(k);
  }

  lemma SpacedClass(k: string)
    ensures k == [] ==> StripRight(" " + k) == []
    ensures EndsInText(k) ==> StripRight(" " + k) == " " + k
  {
    if k == [] {
      assert " " + k == " ";
    }
  }
}
