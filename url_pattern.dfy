/**
  The website pattern of parse_url_from_message (services.py:49-52, again at
  66-69), recognised by hand instead of by a regular-expression engine:

    ^((?:https?://)?(?:www\.)?([a-zA-Z0-9](?:[a-zA-Z0-9-]{0,61}[a-zA-Z0-9])?\.)+[a-zA-Z]{2,}(?:/[^\s]*)?)(?:\s+(.*))?$

  Group 1 is an optional scheme, an optional `www.`, one or more host labels
  each followed by a dot, a top-level domain of two or more letters and an
  optional path; the labels have the shape of section 2.1 of RFC 1123 (1 to 63
  letters, digits or interior hyphens). Group 3 is the text after a run of
  whitespace. `.` does not match a line feed, and `$` matches at the end or
  just before a final line feed.

  The recogniser relies on one observation: group 1 contains no whitespace and
  whatever follows it starts with whitespace, so group 1 is always exactly the
  leading run of non-whitespace characters. MatchUrlSound and
  MatchUrlComplete prove it against a grammar-level reading of the pattern.
 */
module UrlPattern {
  import opened Options
  import opened PyStrings

  predicate IsAsciiLetter(c: char) {
    'a' <= c <= 'z' || 'A' <= c <= 'Z'
  }

  predicate IsAsciiAlnum(c: char) {
    IsAsciiLetter(c) || '0' <= c <= '9'
  }

  /** `[a-zA-Z0-9](?:[a-zA-Z0-9-]{0,61}[a-zA-Z0-9])?` */
  predicate IsLabel(l: string) {
    && 1 <= |l| <= 63
    && IsAsciiAlnum(l[0]) && IsAsciiAlnum(l[|l| - 1])
    && forall i :: 0 < i < |l| - 1 ==> IsAsciiAlnum(l[i]) || l[i] == '-'
  }

  /** `[a-zA-Z]{2,}` */
  predicate IsTld(t: string) {
    |t| >= 2 && forall i :: 0 <= i < |t| ==> IsAsciiLetter(t[i])
  }

  /** `(label\.)+tld`, read one label at a time. */
  predicate IsHostName(h: string): (b: bool)
    ensures b ==> |h| >= 4 && '.' in h && IsAsciiAlnum(h[0]) && IsAsciiLetter(h[|h| - 1])
    decreases |h|
  {
    var d := IndexOfChar(h, '.');
    d < |h| && IsLabel(h[..d]) && (IsTld(h[d + 1..]) || IsHostName(h[d + 1..]))
  }

  /** The labels, each followed by a dot. */
  function Dotted(labels: seq<string>): string {
    if labels == [] then "" else labels[0] + "." + Dotted(labels[1..])
  }

  /** `h` is the labels and the top-level domain of a host name, joined by dots. */
  ghost predicate HostParse(h: string, labels: seq<string>, tld: string) {
    && |labels| >= 1
    && (forall i :: 0 <= i < |labels| ==> IsLabel(labels[i]))
    && IsTld(tld)
    && h == Dotted(labels) + tld
  }

  /** Every host name the recogniser accepts splits into labels and a top-level domain. */
  lemma {:induction false} HostNameParse(h: string) returns (labels: seq<string>, tld: string)
    requires IsHostName(h)
    ensures HostParse(h, labels, tld)
    decreases |h|
  {
    var d := IndexOfChar(h, '.');
    var rest := h[d + 1..];
    assert h == h[..d] + "." + rest;
    if IsTld(rest) {
      labels, tld := [h[..d]], rest;
      assert Dotted(labels[1..]) == "";
    } else {
      var more;
      more, tld := HostNameParse(rest);
      labels := [h[..d]] + more;
      ConsParse(h[..d], rest, more, tld);
    }
  }

  /** A label and a dot in front of a parsed host name add the label to the front of its parse. */
  lemma ConsParse(l: string, rest: string, more: seq<string>, tld: string)
    requires IsLabel(l) && HostParse(rest, more, tld)
    ensures HostParse(l + "." + rest, [l] + more, tld)
  {
    var labels := [l] + more;
    assert labels[1..] == more;
    assert Dotted(labels) == l + "." + Dotted(more);
    assert l + "." + (Dotted(more) + tld) == (l + "." + Dotted(more)) + tld;
  }

  /** The index of the first dot after a label is the label's length. */
  lemma DotAfterLabel(l: string, rest: string)
    requires IsLabel(l)
    ensures IndexOfChar(l + "." + rest, '.') == |l|
  {
    var h := l + "." + rest;
    var k := IndexOfChar(h, '.');
    assert h[|l|] == '.';
  }

  /** Every split into labels and a top-level domain is accepted by the recogniser. */
  lemma {:induction false} ParsedHostName(labels: seq<string>, tld: string)
    requires HostParse(Dotted(labels) + tld, labels, tld)
    ensures IsHostName(Dotted(labels) + tld)
    decreases |labels|
  {
    var l := labels[0];
    var rest := Dotted(labels[1..]) + tld;
    assert Dotted(labels) + tld == l + "." + rest;
    DotAfterLabel(l, rest);
    assert (l + "." + rest)[..|l|] == l;
    assert (l + "." + rest)[|l| + 1..] == rest;
    if |labels| == 1 {
      assert rest == tld;
    } else {
      assert HostParse(rest, labels[1..], tld) by {
        forall i | 0 <= i < |labels| - 1 ensures IsLabel(labels[1..][i]) {
          assert labels[1..][i] == labels[i + 1];
        }
      }
      ParsedHostName(labels[1..], tld);
    }
  }

  /** The recogniser accepts exactly the strings of the form `(label\.)+tld`. */
  lemma HostNameIffParse(h: string)
    ensures IsHostName(h) <==> exists labels, tld :: HostParse(h, labels, tld)
  {
    if IsHostName(h) {
      var labels, tld := HostNameParse(h);
    }
    if exists labels, tld :: HostParse(h, labels, tld) {
      var labels, tld :| HostParse(h, labels, tld);
      ParsedHostName(labels, tld);
    }
  }

  /** One label and a top-level domain form a host name. */
  lemma LabelUnderTld(l: string, tld: string)
    requires IsLabel(l) && IsTld(tld)
    ensures IsHostName(l + "." + tld)
  {
    var h := l + "." + tld;
    DotAfterLabel(l, tld);
    assert h[..|l|] == l;
    assert h[|l| + 1..] == tld;
  }

  /** A host name holds a dot and only letters, digits, hyphens and dots, and starts with a letter or digit. */
  lemma {:induction false} HostNameChars(h: string)
    requires IsHostName(h)
    ensures |h| >= 4 && '.' in h && IsAsciiAlnum(h[0])
    ensures forall i :: 0 <= i < |h| ==> IsAsciiAlnum(h[i]) || h[i] == '-' || h[i] == '.'
    decreases |h|
  {
    var d := IndexOfChar(h, '.');
    var rest := h[d + 1..];
    assert h == h[..d] + "." + rest;
    if !IsTld(rest) {
      HostNameChars(rest);
    }
    forall i | 0 <= i < |h| ensures IsAsciiAlnum(h[i]) || h[i] == '-' || h[i] == '.' {
      if i < d {
        assert h[i] == h[..d][i];
      } else if i > d {
        assert h[i] == rest[i - d - 1];
      }
    }
  }

  /** `www.` in front of a host name gives a host name: `www` is itself a label. */
  lemma WwwHostName(h: string)
    requires IsHostName(h)
    ensures IsHostName("www." + h)
  {
    DotAfterLabel("www", h);
    assert "www." + h == "www" + "." + h;
    assert ("www" + "." + h)[..3] == "www";
    assert ("www" + "." + h)[4..] == h;
  }

  const Http := "http://"
  const Https := "https://"

  /** `u.startswith('http://') or u.startswith('https://')` (services.py:78) */
  predicate HasScheme(u: string) {
    Http <= u || Https <= u
  }

  /** Length of the optional `https?://` at the front of `u`. */
  function SchemeLength(u: string): (n: nat)
    ensures n <= |u|
  {
    if Https <= u then |Https| else if Http <= u then |Http| else 0
  }

  /**
    Group 1 of the pattern: optional scheme, then a host name (which covers the
    optional `www.`), then an optional path starting with `/`, all without
    whitespace.
   */
  predicate IsUrlToken(u: string) {
    NoSpace(u) && IsHostName(HostOf(u))
  }

  /** What lies between the optional scheme and the first `/` after it. */
  function HostOf(u: string): string {
    var rest := u[SchemeLength(u)..];
    rest[..IndexOfChar(rest, '/')]
  }

  /** Group 1 read as the grammar writes it, part by part. */
  ghost predicate UrlTokenParse(u: string, scheme: string, www: string, host: string, path: string) {
    && (scheme == "" || scheme == Http || scheme == Https)
    && (www == "" || www == "www.")
    && IsHostName(host)
    && (path == "" || path[0] == '/')
    && NoSpace(path)
    && u == scheme + www + host + path
  }

  lemma NoSpaceConcat(a: string, b: string)
    requires NoSpace(a) && NoSpace(b)
    ensures NoSpace(a + b)
  {
    forall i | 0 <= i < |a + b| ensures !IsSpace((a + b)[i]) {
      if i >= |a| {
        assert (a + b)[i] == b[i - |a|];
      }
    }
  }

  /** Without a scheme in front, a string made of `www.`, a host name and a path does not start with one. */
  lemma NoSchemeInHost(u: string, www: string, host: string, path: string)
    requires www == "" || www == "www."
    requires IsHostName(host) && u == www + host + path
    ensures SchemeLength(u) == 0
  {
    var wh := www + host;
    WwwHostChars(www, host);
    HostNameChars(wh);
    assert u[..|wh|] == wh;
    HostPrefixNoScheme(u, wh);
  }

  /** A string that starts with host-name characters including a dot starts with no scheme. */
  lemma HostPrefixNoScheme(u: string, wh: string)
    requires wh <= u && '.' in wh
    requires forall i :: 0 <= i < |wh| ==> IsAsciiAlnum(wh[i]) || wh[i] == '-' || wh[i] == '.'
    ensures !HasScheme(u)
  {
    SchemeChars(u);
    if |wh| > 5 {
      assert u[4] == wh[4] && u[5] == wh[5];
    } else {
      var d :| 0 <= d < |wh| && wh[d] == '.';
      assert u[d] == '.';
    }
  }

  /** A scheme puts no dot among the first six characters, and a colon at index 4 or 5. */
  lemma SchemeChars(u: string)
    ensures HasScheme(u) ==> |u| >= 7 && (u[4] == ':' || u[5] == ':')
    ensures HasScheme(u) ==> forall i :: 0 <= i < 6 ==> u[i] != '.'
  {
    if Http <= u {
      assert u[..7] == Http;
    }
    if Https <= u {
      assert u[..8] == Https;
    }
  }

  /** What SchemeLength skips is no scheme, `http://` or `https://`. */
  lemma SchemePrefix(u: string)
    ensures var s := u[..SchemeLength(u)]; s == "" || s == Http || s == Https
  {
    if Https <= u {
      assert u[..|Https|] == Https;
    } else if Http <= u {
      assert u[..|Http|] == Http;
    }
  }

  /** Every group 1 the recogniser accepts has the parts the grammar asks for. */
  lemma UrlTokenParseOf(u: string) returns (scheme: string, www: string, host: string, path: string)
    requires IsUrlToken(u)
    ensures UrlTokenParse(u, scheme, www, host, path)
  {
    var n := SchemeLength(u);
    var rest := u[n..];
    var k := IndexOfChar(rest, '/');
    scheme, www, host, path := u[..n], "", rest[..k], rest[k..];
    SchemePrefix(u);
    CutThree(u, n, k);
    NoSpaceSuffix(u, n + k);
  }

  /** Cutting at `n` and then `k` further on gives the string back, with or without nothing in between. */
  lemma CutThree(u: string, n: nat, k: nat)
    requires n + k <= |u|
    ensures u == u[..n] + u[n..][..k] + u[n..][k..]
    ensures u == u[..n] + "" + u[n..][..k] + u[n..][k..]
    ensures u[n..][k..] == u[n + k..]
  {
    var rest := u[n..];
    assert rest == rest[..k] + rest[k..];
    assert u == u[..n] + rest;
    assert u[..n] + "" == u[..n];
    ConcatAssoc(u[..n], rest[..k], rest[k..]);
  }

  /** `www.` and a host name form a host name without whitespace or `/`. */
  lemma WwwHostChars(www: string, host: string)
    requires www == "" || www == "www."
    requires IsHostName(host)
    ensures IsHostName(www + host)
    ensures NoSpace(www) && NoSpace(host) && '/' !in www + host
  {
    HostNameChars(host);
    HostCharsPlain(host);
    var wh := www + host;
    if www == "www." {
      WwwHostName(host);
      HostNameChars(wh);
      HostCharsPlain(wh);
    } else {
      assert wh == host;
    }
  }

  /** Letters, digits, `-` and `.` include neither whitespace nor `/`. */
  lemma HostCharsPlain(h: string)
    requires forall i :: 0 <= i < |h| ==> IsAsciiAlnum(h[i]) || h[i] == '-' || h[i] == '.'
    ensures NoSpace(h) && '/' !in h
  {
  }

  lemma Regroup(a: string, b: string, c: string, d: string)
    ensures a + b + c + d == a + ((b + c) + d)
  {
  }

  lemma DropPrefix(a: string, b: string)
    ensures (a + b)[|a|..] == b
  {
  }

  lemma SchemeNoSpace(scheme: string)
    requires scheme == "" || scheme == Http || scheme == Https
    ensures NoSpace(scheme)
  {
  }

  /** Group 1 is recognised once its scheme, host part and the `/` after it are located. */
  lemma UrlTokenFromParts(u: string, hostPart: string)
    requires NoSpace(u)
    requires IsHostName(hostPart)
    requires u[SchemeLength(u)..][..IndexOfChar(u[SchemeLength(u)..], '/')] == hostPart
    ensures IsUrlToken(u)
  {
  }

  /** The scheme the grammar reads is the one the recogniser skips. */
  lemma SchemeOfParse(u: string, scheme: string, www: string, host: string, path: string)
    requires UrlTokenParse(u, scheme, www, host, path)
    ensures SchemeLength(u) == |scheme|
  {
    if scheme == "" {
      NoSchemeInHost(u, www, host, path);
    } else if scheme == Http {
      assert u[..7] == Http;
      assert u[4] != Https[4];
    } else {
      assert u[..8] == Https;
    }
  }

  /** Group 1 is recognised once its scheme is skipped and the host part ends at the first `/`. */
  lemma UrlTokenOfPieces(u: string, scheme: string, wh: string, path: string)
    requires u == scheme + (wh + path) && SchemeLength(u) == |scheme| && NoSpace(u)
    requires IsHostName(wh) && '/' !in wh && (path == "" || path[0] == '/')
    ensures IsUrlToken(u)
  {
    var rest := wh + path;
    DropPrefix(scheme, rest);
    assert rest[..|wh|] == wh;
    IndexOfCharAtLeast(rest, '/', |wh|);
    if |wh| < |rest| {
      assert rest[|wh|] == '/';
      IndexOfCharAtMost(rest, '/', |wh|);
    }
    UrlTokenFromParts(u, wh);
  }

  /** Every group 1 built as the grammar describes is accepted by the recogniser. */
  lemma ParsedUrlToken(u: string, scheme: string, www: string, host: string, path: string)
    requires UrlTokenParse(u, scheme, www, host, path)
    ensures IsUrlToken(u)
  {
    SchemeOfParse(u, scheme, www, host, path);
    var wh := www + host;
    WwwHostChars(www, host);
    SchemeNoSpace(scheme);
    NoSpaceConcat(scheme, www);
    NoSpaceConcat(scheme + www, host);
    NoSpaceConcat(scheme + www + host, path);
    Regroup(scheme, www, host, path);
    UrlTokenOfPieces(u, scheme, wh, path);
  }

  /** The recogniser of group 1 accepts exactly what the grammar of group 1 describes. */
  lemma UrlTokenIffParse(u: string)
    ensures IsUrlToken(u) <==> exists scheme, www, host, path :: UrlTokenParse(u, scheme, www, host, path)
  {
    if IsUrlToken(u) {
      var scheme, www, host, path := UrlTokenParseOf(u);
    }
    if exists scheme, www, host, path :: UrlTokenParse(u, scheme, www, host, path) {
      var scheme, www, host, path :| UrlTokenParse(u, scheme, www, host, path);
      ParsedUrlToken(u, scheme, www, host, path);
    }
  }

  /**
    The groups of a successful match: group(1), and group(3), which is `None`
    when the optional tail group took no part.
   */
  datatype UrlMatch = UrlMatch(site: string, tail: Option<string>)

  /** `re.match(pattern, t)` */
  function MatchUrl(t: string): (r: Option<UrlMatch>)
    ensures r.Some? ==> IsUrlToken(r.value.site) && r.value.site <= t
  {
    var n := SpanNonSpace(t);
    if !IsUrlToken(t[..n]) then None
    else if n == |t| then Some(UrlMatch(t[..n], None))
    else
      match MatchTail(t[n..])
      case Some(q) => Some(UrlMatch(t[..n], Some(q)))
      case None => None
  }

  /**
    `\s+(.*)$` on the text after group 1, which starts with whitespace: group 3
    is what follows the whole whitespace run up to the first line feed, and the
    match fails when anything but that one line feed comes after it.
   */
  function MatchTail(s: string): Option<string> {
    var rest := s[SpanSpace(s)..];
    var j := IndexOfChar(rest, '\n');
    if j + 1 >= |rest| then Some(rest[..j]) else None
  }

  /**
    `\s+(.*)` followed by `$`: a non-empty run of whitespace, then text without
    a line feed, then at most one final line feed.
   */
  ghost predicate QueryTail(tail: string, ws: string, q: string, nl: string) {
    && tail == ws + q + nl
    && |ws| > 0 && AllSpace(ws)
    && '\n' !in q
    && (nl == "" || nl == "\n")
  }

  /** The whole pattern matches `t` with group 1 equal to `u`. */
  ghost predicate PatternAccepts(t: string, u: string) {
    && IsUrlToken(u) && u <= t
    && (|u| == |t| || exists ws, q, nl :: QueryTail(t[|u|..], ws, q, nl))
  }

  /**
    The pieces MatchUrl cuts the text after group 1 into satisfy the tail
    grammar, and the query starts after the whole whitespace run.
   */
  lemma TailPieces(s: string)
    requires s != [] && IsSpace(s[0])
    requires IndexOfChar(s[SpanSpace(s)..], '\n') + 1 >= |s[SpanSpace(s)..]|
    ensures var k := SpanSpace(s); var rest := s[k..]; var j := IndexOfChar(rest, '\n');
      && QueryTail(s, s[..k], rest[..j], rest[j..])
      && (j > 0 ==> !IsSpace(rest[..j][0]))
  {
    var k := SpanSpace(s);
    var rest := s[k..];
    var j := IndexOfChar(rest, '\n');
    CutThree(s, k, j);
    if j < |rest| {
      assert rest[j..] == [rest[j]];
    }
    if j > 0 {
      assert rest[..j][0] == s[k];
    }
  }

  /**
    Soundness: what MatchUrl returns is a match of the pattern; group 3 is
    absent only when nothing follows group 1, and the whitespace run before it
    is taken greedily.
   */
  lemma MatchUrlSound(t: string)
    requires MatchUrl(t).Some?
    ensures PatternAccepts(t, MatchUrl(t).value.site)
    ensures MatchUrl(t).value.tail.None? <==> MatchUrl(t).value.site == t
    ensures MatchUrl(t).value.tail.Some? ==>
      exists ws, nl :: QueryTail(t[|MatchUrl(t).value.site|..], ws, MatchUrl(t).value.tail.value, nl)
    ensures MatchUrl(t).value.tail.Some? && MatchUrl(t).value.tail.value != "" ==>
      !IsSpace(MatchUrl(t).value.tail.value[0])
  {
    var n := SpanNonSpace(t);
    if n < |t| {
      var s := t[n..];
      assert s[0] == t[n];
      MatchTailSound(s);
      assert MatchUrl(t).value == UrlMatch(t[..n], MatchTail(s));
      assert t[|MatchUrl(t).value.site|..] == s;
    } else {
      assert MatchUrl(t).value.site == t[..n] == t;
    }
  }

  /** Whatever MatchTail returns is group 3 of a tail the pattern accepts, and it does not start with whitespace. */
  lemma MatchTailSound(s: string)
    requires s != [] && IsSpace(s[0]) && MatchTail(s).Some?
    ensures exists ws, nl :: QueryTail(s, ws, MatchTail(s).value, nl)
    ensures MatchTail(s).value != "" ==> !IsSpace(MatchTail(s).value[0])
  {
    var k := SpanSpace(s);
    var rest := s[k..];
    var j := IndexOfChar(rest, '\n');
    TailPieces(s);
    assert QueryTail(s, s[..k], rest[..j], rest[j..]);
  }

  /** Completeness: whenever the pattern matches, MatchUrl finds the match, with the same group 1. */
  lemma MatchUrlComplete(t: string, u: string)
    requires PatternAccepts(t, u)
    ensures MatchUrl(t).Some? && MatchUrl(t).value.site == u
  {
    assert t[..|u|] == u;
    if |u| == |t| {
      SpanNonSpaceAt(t, |u|);
    } else {
      var n := |u|;
      var s := t[n..];
      var ws, q, nl :| QueryTail(s, ws, q, nl);
      assert s[0] == ws[0] == t[n];
      SpanNonSpaceAt(t, n);
      TailAccepted(s, ws, q, nl);
    }
  }

  /** Whatever the tail grammar accepts, MatchUrl's cut of it leaves at most one final line feed. */
  lemma TailAccepted(s: string, ws: string, q: string, nl: string)
    requires QueryTail(s, ws, q, nl)
    ensures IndexOfChar(s[SpanSpace(s)..], '\n') + 1 >= |s[SpanSpace(s)..]|
  {
    assert s[..|ws|] == ws;
    SpanSpaceAtLeast(s, |ws|);
    var k := SpanSpace(s);
    var rest := s[k..];
    if |rest| > 1 {
      var j := |rest| - 1;
      assert forall i :: 0 <= i < j ==> rest[..j][i] == q[k - |ws| + i];
      IndexOfCharAtLeast(rest, '\n', j);
    }
  }

  /** Group 1 holds at least four characters and a dot, and starts with a letter or digit. */
  lemma UrlTokenShape(u: string)
    requires IsUrlToken(u)
    ensures |u| >= 4 && '.' in u && IsAsciiAlnum(u[0])
  {
    var n := SchemeLength(u);
    var h := HostOf(u);
    HostNameChars(h);
    HostInside(u);
    var d :| 0 <= d < |h| && h[d] == '.';
    assert u[n + d] == h[d];
    if n > 0 {
      SchemePrefix(u);
      assert u[0] == u[..n][0];
    } else {
      assert u[0] == h[0];
    }
  }

  /** The host part sits in `u` right after the scheme. */
  lemma HostInside(u: string)
    ensures SchemeLength(u) + |HostOf(u)| <= |u|
    ensures forall i :: 0 <= i < |HostOf(u)| ==> HostOf(u)[i] == u[SchemeLength(u) + i]
  {
  }

  /** A text that is group 1 alone matches, with no group 3. */
  lemma MatchUrlAlone(u: string)
    requires IsUrlToken(u)
    ensures MatchUrl(u) == Some(UrlMatch(u, None))
  {
    SpanNonSpaceAt(u, |u|);
    assert u[..|u|] == u;
  }

  /** Group 1, one space and a one-line query match with the query as group 3. */
  lemma MatchUrlWithQuery(u: string, q: string)
    requires IsUrlToken(u) && q != [] && !IsSpace(q[0]) && '\n' !in q
    ensures MatchUrl(u + " " + q) == Some(UrlMatch(u, Some(q)))
  {
    var t := u + " " + q;
    var n := |u|;
    assert t[..n] == u;
    SpanNonSpaceAt(t, n);
    assert t[n..] == " " + q && (" " + q)[1..] == q;
    assert SpanSpace(t[n..]) == 1;
    assert t[n + 1..] == q;
    assert q[..|q|] == q;
    IndexOfCharAtLeast(q, '\n', |q|);
    assert t[n + 1..|t|] == q;
  }

  /** Putting `https://` in front of a group 1 without a scheme keeps it a group 1 with the same host. */
  lemma PrependHttps(u: string)
    requires IsUrlToken(u) && !HasScheme(u)
    ensures IsUrlToken(Https + u) && HostOf(Https + u) == HostOf(u)
  {
    assert (Https + u)[..|Https|] == Https;
    assert SchemeLength(Https + u) == |Https|;
    assert (Https + u)[|Https|..] == u;
    SchemeNoSpace(Https);
    NoSpaceConcat(Https, u);
  }
}
