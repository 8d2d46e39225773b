/** `Aldap.findMatch`: extract the Common Name of a group's distinguished name
    and match a caller's group pattern against it. Patterns are literal text and
    characters are ASCII (see README). */
module GroupMatch {
  import opened Outcomes
  import opened Text

  /** `\w` under ASCII rules. */
  predicate IsWordChar(c: char)
  {
    'a' <= c <= 'z' || 'A' <= c <= 'Z' || '0' <= c <= '9' || c == '_'
  }

  /** `\s` under ASCII rules: space, tab, line feed, carriage return, vertical tab, form feed. */
  predicate IsSpaceChar(c: char)
  {
    c == ' ' || c == '\t' || c == '\n' || c == '\r' || c as int == 11 || c as int == 12
  }

  /** The characters that `((\w*\s?_?]*)*)` can consume. */
  predicate IsCnChar(c: char)
  {
    IsWordChar(c) || IsSpaceChar(c) || c == ']'
  }

  predicate StartsWithCN(dn: string)
  {
    |dn| >= 3 && dn[..3] == "CN="
  }

  /** The longest prefix of `s` made of CN characters: the group that the
      repeated, greedy pattern captures. */
  function ExtractCN(s: string): (cn: string)
    ensures |cn| <= |s| && cn == s[..|cn|]
    ensures forall i :: 0 <= i < |cn| ==> IsCnChar(cn[i])
    ensures |cn| < |s| ==> !IsCnChar(s[|cn|])
  {
    if s != [] && IsCnChar(s[0]) then [s[0]] + ExtractCN(s[1..]) else []
  }

  /** The CN is exactly the maximal run: any `k` that starts a non-CN character
      (or ends the string) after a run of CN characters is its length. */
  lemma {:induction false} ExtractCNIsMaximalRun(s: string, k: nat)
    requires k <= |s|
    ensures ExtractCN(s) == s[..k] <==>
      (forall i :: 0 <= i < k ==> IsCnChar(s[i])) && (k < |s| ==> !IsCnChar(s[k]))
  {
    var cn := ExtractCN(s);
    if cn == s[..k] {
      assert |cn| == k;
      forall i | 0 <= i < k ensures IsCnChar(s[i]) {
        assert cn[i] == s[i];
      }
    }
    if (forall i :: 0 <= i < k ==> IsCnChar(s[i])) && (k < |s| ==> !IsCnChar(s[k])) {
      assert |cn| == k;
    }
  }

  lemma {:induction false} ExtractCNLower(s: string)
    ensures ExtractCN(Lower(s)) == Lower(ExtractCN(s))
  {
    if s != [] {
      assert Lower(s)[0] == LowerChar(s[0]);
      assert IsCnChar(LowerChar(s[0])) == IsCnChar(s[0]);
      assert Lower(s)[1..] == Lower(s[1..]);
      ExtractCNLower(s[1..]);
      if IsCnChar(s[0]) {
        LowerAppend([s[0]], ExtractCN(s[1..]));
      }
    }
  }

  /** `re.match('CN=(...)', dn).group(1)`: the CN, or the AttributeError raised
      when the string does not start with `CN=`. */
  function ParseCN(dn: string): (r: Result<string>)
    ensures r.Err? <==> !StartsWithCN(dn)
    ensures r.Err? ==> r.error == MalformedGroupDn
    ensures r.Ok? ==> r.value == ExtractCN(dn[3..])
  {
    if StartsWithCN(dn) then Ok(ExtractCN(dn[3..])) else Err(MalformedGroupDn)
  }

  /** `re.fullmatch(pattern + '.*', cn)` for a literal pattern: the pattern is a
      prefix and the rest contains no line feed (which `.` does not match). */
  predicate FullMatchesPrefix(pattern: string, cn: string)
  {
    pattern <= cn && forall i :: |pattern| <= i < |cn| ==> cn[i] != '\n'
  }

  function Fold(s: string, caseSensitive: bool): string
  {
    if caseSensitive then s else Lower(s)
  }

  /** `findMatch(matchGroup, userGroup)`: Err when the DN has no leading `CN=`;
      otherwise the whole (folded) CN when the (folded) pattern matches it as a
      prefix, and None when it does not. */
  function FindMatch(pattern: string, dn: string, caseSensitive: bool): (r: Result<Option<string>>)
    ensures !StartsWithCN(dn) <==> r == Err(MalformedGroupDn)
    ensures StartsWithCN(dn) ==>
      var cn := Fold(ExtractCN(dn[3..]), caseSensitive);
      r.Ok? && (r.value.Some? <==> FullMatchesPrefix(Fold(pattern, caseSensitive), cn))
      && (r.value.Some? ==> r.value.value == cn)
  {
    match ParseCN(dn)
    case Err(e) => Err(e)
    case Ok(cn) =>
      var p, c := Fold(pattern, caseSensitive), Fold(cn, caseSensitive);
      if FullMatchesPrefix(p, c) then Ok(Some(c)) else Ok(None)
  }

  /** With case-insensitive groups the outcome is that of matching the
      lower-cased pattern against the lower-cased DN, case-sensitively. */
  lemma FindMatchLowersBothSides(pattern: string, dn: string)
    requires StartsWithCN(dn)
    ensures FindMatch(pattern, dn, false) == FindMatch(Lower(pattern), "CN=" + Lower(dn[3..]), true)
  {
    var dn' := "CN=" + Lower(dn[3..]);
    assert dn'[..3] == "CN=" && dn'[3..] == Lower(dn[3..]);
    ExtractCNLower(dn[3..]);
  }

  /** With case-insensitive groups, changing the case of the pattern or of the
      CN part of the DN does not change the outcome. */
  lemma FindMatchIgnoresCase(pattern: string, pattern': string, dn: string, dn': string)
    requires StartsWithCN(dn) && StartsWithCN(dn')
    requires Lower(pattern) == Lower(pattern') && Lower(dn[3..]) == Lower(dn'[3..])
    ensures FindMatch(pattern, dn, false) == FindMatch(pattern', dn', false)
  {
    ExtractCNLower(dn[3..]);
    ExtractCNLower(dn'[3..]);
  }

  /** A run of CN characters followed by anything that does not continue it is the CN. */
  lemma ExtractCNOfRun(name: string, rest: string)
    requires forall i :: 0 <= i < |name| ==> IsCnChar(name[i])
    requires rest == [] || !IsCnChar(rest[0])
    ensures ExtractCN(name + rest) == name
  {
    var s := name + rest;
    assert s[..|name|] == name;
    ExtractCNIsMaximalRun(s, |name|);
  }

  /** When `name` is a whole CN run, findMatch compares the pattern with `name` itself. */
  lemma FindMatchOfRun(pattern: string, name: string, rest: string, caseSensitive: bool)
    requires forall i :: 0 <= i < |name| ==> IsCnChar(name[i])
    requires rest == [] || !IsCnChar(rest[0])
    ensures FindMatch(pattern, "CN=" + name + rest, caseSensitive) ==
      if FullMatchesPrefix(Fold(pattern, caseSensitive), Fold(name, caseSensitive))
      then Ok(Some(Fold(name, caseSensitive))) else Ok(None)
  {
    var dn := "CN=" + name + rest;
    assert dn[..3] == "CN=";
    assert dn[3..] == name + rest;
    ExtractCNOfRun(name, rest);
  }

  /** A hyphen ends the CN, whatever follows it, and the returned CN is lower-cased
      unless groups are case-sensitive. */
  lemma FindMatchStopsAtHyphen(rest: string)
    ensures FindMatch("Engineering", "CN=Engineering-East" + rest, false) == Ok(Some("engineering"))
    ensures FindMatch("Engineering", "CN=Engineering-East" + rest, true) == Ok(Some("Engineering"))
  {
    var name := "Engineering";
    assert "CN=Engineering-East" + rest == "CN=" + name + ("-East" + rest);
    FindMatchOfRun(name, name, "-East" + rest, false);
    FindMatchOfRun(name, name, "-East" + rest, true);
    LowerExamples();
    var lowered := Lower(name);
    assert FullMatchesPrefix(lowered, lowered);
    assert FullMatchesPrefix(name, name);
  }
}
