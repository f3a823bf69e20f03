/**
 * `isUrl` of src/lib/utils/utils.ts: a loose URL test built from three
 * regular expressions, written out here as string predicates.  Each
 * predicate is paired with the regular expression's own reading as an
 * existential over the strings its parts match, and the two are proved
 * equal.  In these expressions `\w`, `\d` are the ASCII classes (no `u`
 * flag) and `\s` is JavaScript's white-space set.
 */
module Url {
  import opened Wrappers

  /** The argument of `isUrl`, which is typed `any`. */
  datatype Arg = StrArg(s: string) | NonString

  /** `\s`: JavaScript's white-space and line-terminator characters. */
  predicate IsSpace(c: char)
  {
    ('\t' <= c <= '\r') || c == ' ' || c == '\U{A0}' || c == '\U{1680}'
    || ('\U{2000}' <= c <= '\U{200A}') || c == '\U{2028}' || c == '\U{2029}'
    || c == '\U{202F}' || c == '\U{205F}' || c == '\U{3000}' || c == '\U{FEFF}'
  }

  /** `\w`. */
  predicate IsWord(c: char)
  {
    ('a' <= c <= 'z') || ('A' <= c <= 'Z') || ('0' <= c <= '9') || c == '_'
  }

  /** `[:?\d]`. */
  predicate IsPortChar(c: char)
  {
    c == ':' || c == '?' || ('0' <= c <= '9')
  }

  /** `\S*`. */
  predicate NoSpace(s: string)
  {
    forall i :: 0 <= i < |s| ==> !IsSpace(s[i])
  }

  /** `\w*`. */
  predicate AllWord(s: string)
  {
    forall i :: 0 <= i < |s| ==> IsWord(s[i])
  }

  /** `[:?\d]*`. */
  predicate AllPort(s: string)
  {
    forall i :: 0 <= i < |s| ==> IsPortChar(s[i])
  }

  /** `[^\s.]*`. */
  predicate NoSpaceOrDot(s: string)
  {
    forall i :: 0 <= i < |s| ==> !IsSpace(s[i]) && s[i] != '.'
  }

  /** The length of the longest prefix of word characters. */
  function WordPrefix(s: string): (n: nat)
    ensures n <= |s|
    ensures AllWord(s[..n])
    ensures n < |s| ==> !IsWord(s[n])
  {
    if |s| > 0 && IsWord(s[0]) then
      var m := WordPrefix(s[1..]);
      assert s[..1 + m] == [s[0]] + s[1..][..m];
      1 + m
    else 0
  }

  /** The length of the longest prefix of `[:?\d]` characters. */
  function PortPrefix(s: string): (n: nat)
    ensures n <= |s|
    ensures AllPort(s[..n])
    ensures n < |s| ==> !IsPortChar(s[n])
  {
    if |s| > 0 && IsPortChar(s[0]) then
      var m := PortPrefix(s[1..]);
      assert s[..1 + m] == [s[0]] + s[1..][..m];
      1 + m
    else 0
  }

  /** The word run of `w + e` is exactly `w` when `e` does not go on with a word character. */
  lemma {:induction false} WordPrefixOf(w: string, e: string)
    requires AllWord(w) && (e == "" || !IsWord(e[0]))
    ensures WordPrefix(w + e) == |w|
  {
    if w != "" {
      assert (w + e)[0] == w[0];
      assert (w + e)[1..] == w[1..] + e;
      WordPrefixOf(w[1..], e);
    } else {
      assert w + e == e;
    }
  }

  /** The first index of `c` in `s`, or -1. */
  function IndexOf(s: string, c: char): (i: int)
    ensures -1 <= i < |s|
    ensures i >= 0 ==> s[i] == c && forall j :: 0 <= j < i ==> s[j] != c
    ensures i == -1 ==> forall j :: 0 <= j < |s| ==> s[j] != c
  {
    if |s| == 0 then -1
    else if s[0] == c then 0
    else
      var k := IndexOf(s[1..], c);
      if k == -1 then -1 else 1 + k
  }

  // ---------------------------------------------------------------------
  // protocolAndDomainRE  /^(?:\w+:)?\/\/(\S+)$/
  // ---------------------------------------------------------------------

  /** What follows an optional `\w+:` and then `//`, when the string starts so. */
  function AfterSlashes(s: string): Option<string>
  {
    if |s| >= 2 && s[..2] == "//" then Some(s[2..])
    else
      var n := WordPrefix(s);
      if 0 < n && n + 3 <= |s| && s[n] == ':' && s[n + 1..n + 3] == "//" then Some(s[n + 3..])
      else None
  }

  /** `string.match(protocolAndDomainRE)`: the captured group, or no match. */
  function ProtocolMatch(s: string): Option<string>
  {
    var r := AfterSlashes(s);
    if r.Some? && |r.value| > 0 && NoSpace(r.value) then r else None
  }

  /** `s` is a protocol `w` (possibly none) with `//` and the group `r`. */
  predicate ProtocolParts(s: string, w: string, r: string)
  {
    && (if w == "" then s == "//" + r else AllWord(w) && s == w + ":" + "//" + r)
    && |r| > 0 && NoSpace(r)
  }

  /** The regular expression matches `s` with group `r` exactly when some protocol splits it so. */
  lemma ProtocolMatchSpec(s: string, r: string)
    ensures ProtocolMatch(s) == Some(r) <==> exists w :: ProtocolParts(s, w, r)
  {
    if ProtocolMatch(s) == Some(r) {
      MatchHasParts(s, r);
    }
    if w :| ProtocolParts(s, w, r) {
      PartsMatch(s, w, r);
    }
  }

  /** A match splits its string into a protocol, `//` and the group. */
  lemma MatchHasParts(s: string, r: string)
    requires ProtocolMatch(s) == Some(r)
    ensures exists w :: ProtocolParts(s, w, r)
  {
    if |s| >= 2 && s[..2] == "//" {
      assert s == "//" + s[2..];
      assert ProtocolParts(s, "", r);
    } else {
      var n := WordPrefix(s);
      var w := s[..n];
      assert s == w + ":" + "//" + s[n + 3..];
      assert ProtocolParts(s, w, r);
    }
  }

  /** A protocol, `//` and a white-space-free group make a match with that group. */
  lemma PartsMatch(s: string, w: string, r: string)
    requires ProtocolParts(s, w, r)
    ensures ProtocolMatch(s) == Some(r)
  {
    if w == "" {
      assert s[..2] == "//" && s[2..] == r;
    } else {
      assert s[0] == w[0] && IsWord(w[0]);
      assert s[..2] != "//";
      SchemeSplit(w, r);
    }
  }

  /** The `!everythingAfterProtocol` test never fires: the group matched `\S+`. */
  lemma GroupNeverEmpty(s: string)
    requires ProtocolMatch(s).Some?
    ensures ProtocolMatch(s).value != ""
  {
  }

  // ---------------------------------------------------------------------
  // localhostDomainRE  /^localhost[:?\d]*(?:[^:?\d]\S*)?$/
  // ---------------------------------------------------------------------

  /** `localhostDomainRE.test(t)`. */
  predicate LocalhostForm(t: string)
  {
    |t| >= 9 && t[..9] == "localhost"
    && var u := t[9..];
       var n := PortPrefix(u);
       n == |u| || (!IsPortChar(u[n]) && NoSpace(u[n + 1..]))
  }

  /** `t` is `localhost`, the port part `d` and the optional rest `e`. */
  predicate LocalhostParts(t: string, d: string, e: string)
  {
    && t == "localhost" + d + e
    && AllPort(d)
    && (e == "" || (!IsPortChar(e[0]) && NoSpace(e[1..])))
  }

  /** The predicate agrees with the regular expression. */
  lemma LocalhostFormSpec(t: string)
    ensures LocalhostForm(t) <==> exists d, e :: LocalhostParts(t, d, e)
  {
    if LocalhostForm(t) {
      var u := t[9..];
      var n := PortPrefix(u);
      assert t == "localhost" + u[..n] + u[n..];
      assert LocalhostParts(t, u[..n], u[n..]);
    }
    if d, e :| LocalhostParts(t, d, e) {
      assert t[..9] == "localhost";
      var u := t[9..];
      assert u == d + e;
      PortPrefixOf(d, e);
      assert u[|d|..] == e;
    }
  }

  /** The port run of `d + e` is exactly `d` when `e` does not go on with a port character. */
  lemma {:induction false} PortPrefixOf(d: string, e: string)
    requires AllPort(d) && (e == "" || !IsPortChar(e[0]))
    ensures PortPrefix(d + e) == |d|
  {
    if d != "" {
      assert (d + e)[0] == d[0];
      assert (d + e)[1..] == d[1..] + e;
      PortPrefixOf(d[1..], e);
    } else {
      assert d + e == e;
    }
  }

  /** On a group (no white space) the port part constrains nothing: only the `localhost` start matters. */
  lemma LocalhostOnGroup(t: string)
    requires NoSpace(t)
    ensures LocalhostForm(t) <==> |t| >= 9 && t[..9] == "localhost"
  {
    if |t| >= 9 && t[..9] == "localhost" {
      var u := t[9..];
      var n := PortPrefix(u);
      if n < |u| {
        assert u[n + 1..] == t[9 + n + 1..];
      }
    }
  }

  // ---------------------------------------------------------------------
  // nonLocalhostDomainRE  /^[^\s.]+\.\S{2,}$/
  // ---------------------------------------------------------------------

  /** `nonLocalhostDomainRE.test(t)`. */
  predicate LabelForm(t: string)
  {
    var i := IndexOf(t, '.');
    0 < i && NoSpace(t[..i]) && |t| - i - 1 >= 2 && NoSpace(t[i + 1..])
  }

  /** `t` is the label `a`, a dot and the rest `b`. */
  predicate LabelParts(t: string, a: string, b: string)
  {
    t == a + "." + b && |a| > 0 && NoSpaceOrDot(a) && |b| >= 2 && NoSpace(b)
  }

  /** The predicate agrees with the regular expression. */
  lemma LabelFormSpec(t: string)
    ensures LabelForm(t) <==> exists a, b :: LabelParts(t, a, b)
  {
    var i := IndexOf(t, '.');
    if LabelForm(t) {
      assert t == t[..i] + "." + t[i + 1..];
      assert LabelParts(t, t[..i], t[i + 1..]);
    }
    if a, b :| LabelParts(t, a, b) {
      assert t[|a|] == '.';
      assert i == |a|;
      assert t[..i] == a && t[i + 1..] == b;
    }
  }

  // ---------------------------------------------------------------------
  // isUrl
  // ---------------------------------------------------------------------

  /** `isUrl(x)`. */
  predicate IsUrl(x: Arg)
  {
    match x
    case NonString => false
    case StrArg(s) =>
      var m := ProtocolMatch(s);
      if m.None? then false
      else if m.value == "" then false
      else LocalhostForm(m.value) || LabelForm(m.value)
  }

  /**
   * A URL is a string that the protocol expression splits into a protocol
   * and a group, where the group is of the localhost form or the label form.
   */
  lemma IsUrlSpec(x: Arg)
    ensures IsUrl(x) <==>
              && x.StrArg?
              && ProtocolMatch(x.s).Some?
              && var r := ProtocolMatch(x.s).value;
                 && (exists w :: ProtocolParts(x.s, w, r))
                 && ((exists d, e :: LocalhostParts(r, d, e)) || (exists a, b :: LabelParts(r, a, b)))
  {
    if x.StrArg? && ProtocolMatch(x.s).Some? {
      var r := ProtocolMatch(x.s).value;
      ProtocolMatchSpec(x.s, r);
      LocalhostFormSpec(r);
      LabelFormSpec(r);
    }
  }

  /** A non-string is never a URL. */
  lemma NonStringNotUrl()
    ensures !IsUrl(NonString)
  {
  }

  lemma NoSpaceConcat(a: string, b: string)
    ensures NoSpace(a + b) <==> NoSpace(a) && NoSpace(b)
  {
    assert forall i :: 0 <= i < |a| ==> (a + b)[i] == a[i];
    assert forall i :: 0 <= i < |b| ==> (a + b)[|a| + i] == b[i];
  }

  /** Whatever the protocol expression matches contains no white space. */
  lemma MatchHasNoSpace(s: string)
    requires ProtocolMatch(s).Some?
    ensures NoSpace(s)
  {
    var r := ProtocolMatch(s).value;
    ProtocolMatchSpec(s, r);
    var w :| ProtocolParts(s, w, r);
    NoSpaceConcat("//", r);
    if w != "" {
      NoSpaceConcat(w + ":" + "//", r);
      NoSpaceConcat(w + ":", "//");
      NoSpaceConcat(w, ":");
    }
  }

  /** A URL contains no white space anywhere. */
  lemma UrlHasNoSpace(s: string)
    requires IsUrl(StrArg(s))
    ensures NoSpace(s)
  {
    MatchHasNoSpace(s);
  }

  // ---------------------------------------------------------------------
  // Examples
  // ---------------------------------------------------------------------

  /** A word protocol, `//` and any rest: the rest is what follows the slashes. */
  lemma SchemeSplit(w: string, r: string)
    requires |w| > 0 && AllWord(w)
    ensures AfterSlashes(w + ":" + "//" + r) == Some(r)
  {
    var s := w + ":" + "//" + r;
    assert s[0] == w[0];
    assert s == w + (":" + "//" + r);
    WordPrefixOf(w, ":" + "//" + r);
    var n := |w|;
    assert s[n + 1..n + 3] == "//" && s[n + 3..] == r;
  }

  /**
   * Behind `http://` what follows the slashes is the rest, and the rest is
   * the captured group exactly when it is nonempty and free of white space.
   */
  lemma HttpGroup(r: string)
    ensures AfterSlashes("http://" + r) == Some(r)
    ensures ProtocolMatch("http://" + r) == (if r != "" && NoSpace(r) then Some(r) else None)
  {
    SchemeSplit("http", r);
    assert "http" + ":" + "//" == "http://";
    assert "http" + ":" + "//" + r == "http://" + r;
  }

  /** Printable ASCII other than the space. */
  predicate Graphic(s: string)
  {
    forall i :: 0 <= i < |s| ==> '!' <= s[i] <= '~'
  }

  lemma GraphicNoSpace(s: string)
    requires Graphic(s)
    ensures NoSpace(s)
  {
  }

  /** Lower-case ASCII letters only. */
  predicate Lower(s: string)
  {
    forall i :: 0 <= i < |s| ==> 'a' <= s[i] <= 'z'
  }

  lemma LowerLabel(s: string)
    requires Lower(s)
    ensures AllWord(s) && NoSpaceOrDot(s) && NoSpace(s) && Graphic(s)
  {
  }

  /** A dotted name of lower-case labels, the second of two letters or more, has the label form. */
  lemma DottedLabel(a: string, b: string)
    requires |a| > 0 && |b| >= 2 && Lower(a) && Lower(b)
    ensures NoSpace(a + "." + b) && LabelForm(a + "." + b)
  {
    LowerLabel(a);
    LowerLabel(b);
    assert LabelParts(a + "." + b, a, b);
    LabelFormSpec(a + "." + b);
    NoSpaceConcat(a + ".", b);
    NoSpaceConcat(a, ".");
  }

  lemma ExampleLabel()
    ensures NoSpace("example.com") && LabelForm("example.com")
  {
    assert Lower("example") && Lower("com");
    DottedLabel("example", "com");
    assert "example" + "." + "com" == "example.com";
  }

  lemma ExampleLocalhost()
    ensures NoSpace("localhost:3000") && LocalhostForm("localhost:3000")
  {
    var t := "localhost:3000";
    assert AllPort(":3000");
    assert t == "localhost" + ":3000" + "";
    assert LocalhostParts(t, ":3000", "");
    LocalhostFormSpec(t);
    assert Graphic(t);
    GraphicNoSpace(t);
  }

  lemma ExampleHttpDomain()
    ensures IsUrl(StrArg("http://" + "example.com"))
  {
    ExampleLabel();
    HttpGroup("example.com");
  }

  lemma ExampleLocalhostPort()
    ensures IsUrl(StrArg("http://" + "localhost:3000"))
  {
    ExampleLocalhost();
    HttpGroup("localhost:3000");
  }

  /** A word followed by anything but `:` and a word character has no protocol part. */
  lemma NoScheme(w: string, e: string)
    requires |w| > 0 && AllWord(w) && e != "" && !IsWord(e[0]) && e[0] != ':'
    ensures AfterSlashes(w + e).None?
  {
    assert (w + e)[0] == w[0];
    WordPrefixOf(w, e);
    assert (w + e)[|w|] == e[0];
  }

  lemma ExampleNoProtocol()
    ensures !IsUrl(StrArg("example" + ".com"))
  {
    assert Lower("example");
    LowerLabel("example");
    NoScheme("example", ".com");
  }

  lemma ExampleShortTopLevel()
    ensures !IsUrl(StrArg("http://" + "a.b"))
  {
    var r := "a.b";
    HttpGroup(r);
    assert r[1] == '.' && r[0] != '.';
    assert IndexOf(r, '.') == 1;
  }
}
