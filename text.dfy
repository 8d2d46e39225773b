/** String operations used by the session object: ASCII lower-casing (`str.lower`),
    left-to-right replacement (`str.replace`) and removal of a `DOMAIN\` prefix. */
module Text {
  import opened Outcomes

  predicate IsUpper(c: char) { 'A' <= c <= 'Z' }

  /** `str.lower` on one character, restricted to ASCII. */
  function LowerChar(c: char): (d: char)
    ensures !IsUpper(d)
    ensures IsUpper(c) ==> d as int == c as int + 32
    ensures !IsUpper(c) ==> d == c
  {
    if IsUpper(c) then (c as int + 32) as char else c
  }

  /** `str.lower`, restricted to ASCII: character by character, leaving no upper-case letter. */
  function Lower(s: string): (r: string)
    ensures |r| == |s|
    ensures forall i :: 0 <= i < |r| ==> !IsUpper(r[i])
    ensures forall i :: 0 <= i < |s| ==> r[i] == LowerChar(s[i])
  {
    seq(|s|, i requires 0 <= i < |s| => LowerChar(s[i]))
  }

  /** `"Engineering".lower()` and `"Admins".lower()`. */
  lemma LowerExamples()
    ensures Lower("Engineering") == "engineering"
    ensures Lower("Admins") == "admins"
  {
    var e, a := Lower("Engineering"), Lower("Admins");
    assert e[0] == 'e' && e[1..] == "ngineering";
    assert a[0] == 'a' && a[1..] == "dmins";
  }

  /** The conditional is compared after lower-casing, so these spellings select the rules. */
  lemma ConditionalSpellings()
    ensures Lower("AND") == Lower("And") == "and"
    ensures Lower("OR") == Lower("Or") == "or"
  {
    var a, b, c, d := Lower("AND"), Lower("And"), Lower("OR"), Lower("Or");
    assert a[0] == b[0] == 'a' && a[1..] == b[1..] == "nd";
    assert c[0] == d[0] == 'o' && c[1..] == d[1..] == "r";
  }

  lemma LowerAppend(a: string, b: string)
    ensures Lower(a + b) == Lower(a) + Lower(b)
  {
  }

  // ---------------------------------------------------------------------------
  // str.replace

  /** Whether `target` occurs in `s` starting at index `i`. */
  predicate OccursAt(s: string, target: string, i: nat)
  {
    i + |target| <= |s| && s[i..i + |target|] == target
  }

  /** `s.replace(target, replacement)`: scan left to right, replace every
      non-overlapping occurrence of a non-empty `target`. */
  function ReplaceAll(s: string, target: string, replacement: string): (r: string)
    requires target != []
    decreases |s|
  {
    if |s| < |target| then s
    else if s[..|target|] == target then replacement + ReplaceAll(s[|target|..], target, replacement)
    else [s[0]] + ReplaceAll(s[1..], target, replacement)
  }

  /** A template without the placeholder comes back unchanged. */
  lemma {:induction false} ReplaceAbsent(s: string, target: string, replacement: string)
    requires target != []
    requires forall i :: 0 <= i <= |s| - |target| ==> !OccursAt(s, target, i)
    ensures ReplaceAll(s, target, replacement) == s
  {
    if |s| >= |target| {
      assert !OccursAt(s, target, 0);
      assert s[..|target|] != target;
      forall i | 0 <= i <= |s[1..]| - |target|
        ensures !OccursAt(s[1..], target, i)
      {
        OccursAtTail(s, target, i);
      }
      ReplaceAbsent(s[1..], target, replacement);
    }
  }

  /** Replacing the target by itself changes nothing. */
  lemma {:induction false} ReplaceBySelf(s: string, target: string)
    requires target != []
    ensures ReplaceAll(s, target, target) == s
    decreases |s|
  {
    if |s| < |target| {
    } else if s[..|target|] == target {
      ReplaceBySelf(s[|target|..], target);
      assert s == s[..|target|] + s[|target|..];
    } else {
      ReplaceBySelf(s[1..], target);
      assert s == [s[0]] + s[1..];
    }
  }

  /** An occurrence in the tail of `s` is an occurrence in `s`, one index later. */
  lemma OccursAtTail(s: string, target: string, i: nat)
    requires s != []
    ensures OccursAt(s[1..], target, i) <==> OccursAt(s, target, i + 1)
  {
    if i + 1 + |target| <= |s| {
      assert s[1..][i..i + |target|] == s[i + 1..i + 1 + |target|];
    }
  }

  /** Text before the first occurrence is kept, the occurrence becomes the
      replacement, and the scan resumes after it; `a` is any text in which no
      occurrence of the target starts. */
  lemma {:induction false} ReplaceFirstOccurrence(a: string, target: string, b: string, replacement: string)
    requires target != []
    requires forall i :: 0 <= i < |a| ==> !OccursAt(a + target + b, target, i)
    ensures ReplaceAll(a + target + b, target, replacement) == a + replacement + ReplaceAll(b, target, replacement)
    decreases |a|
  {
    var s := a + target + b;
    assert |s| >= |target|;
    if a == [] {
      assert s == target + b;
      assert s[..|target|] == target;
      assert s[|target|..] == b;
    } else {
      var a' := a[1..];
      var s' := a' + target + b;
      assert s[1..] == s';
      forall i | 0 <= i < |a'| ensures !OccursAt(s', target, i) {
        OccursAtTail(s, target, i);
      }
      ReplaceFirstOccurrence(a', target, b, replacement);
      assert !OccursAt(s, target, 0);
      assert ReplaceAll(s, target, replacement) == [s[0]] + ReplaceAll(s', target, replacement);
      assert a == [s[0]] + a';
    }
  }

  /** No occurrence starts inside text that holds no copy of the target's first character. */
  lemma NoOccurrenceWithoutFirstChar(a: string, target: string, b: string)
    requires target != []
    requires forall i :: 0 <= i < |a| ==> a[i] != target[0]
    ensures forall i :: 0 <= i < |a| ==> !OccursAt(a + target + b, target, i)
  {
    forall i | 0 <= i < |a| ensures !OccursAt(a + target + b, target, i) {
      assert (a + target + b)[i] == a[i];
    }
  }

  /** A template with one occurrence of the target, and no copy of its first
      character elsewhere, has exactly that occurrence replaced. */
  lemma ReplaceSingleOccurrence(a: string, target: string, b: string, replacement: string)
    requires target != []
    requires target[0] !in a && target[0] !in b
    ensures ReplaceAll(a + target + b, target, replacement) == a + replacement + b
  {
    NoOccurrenceWithoutFirstChar(a, target, b);
    ReplaceFirstOccurrence(a, target, b, replacement);
    forall i | 0 <= i <= |b| - |target| ensures !OccursAt(b, target, i) {
      assert b[i] != target[0];
    }
    ReplaceAbsent(b, target, replacement);
  }

  // ---------------------------------------------------------------------------
  // re.sub(r'^.+\\', '', username)

  /** Index of the first line feed of `s`, or `|s|`: the part `.` can match. */
  function LineEnd(s: string): (n: nat)
    ensures n <= |s|
    ensures forall j :: 0 <= j < n ==> s[j] != '\n'
    ensures n < |s| ==> s[n] == '\n'
  {
    if s == [] || s[0] == '\n' then 0 else 1 + LineEnd(s[1..])
  }

  /** The largest index `i` with `1 <= i < n` holding a backslash (`.+` needs
      at least one character before it). */
  function LastBackslash(s: string, n: nat): (r: Option<nat>)
    requires n <= |s|
    ensures r.Some? ==> 1 <= r.value < n && s[r.value] == '\\'
    ensures r.Some? ==> forall j :: r.value < j < n ==> s[j] != '\\'
    ensures r.None? ==> forall j :: 1 <= j < n ==> s[j] != '\\'
  {
    if n <= 1 then None
    else if s[n - 1] == '\\' then Some(n - 1)
    else LastBackslash(s, n - 1)
  }

  /** The user name with its `DOMAIN\` prefix removed: everything up to and
      including the last backslash that has at least one character before it
      and no line feed before it. */
  function StripDomain(user: string): (r: string)
    ensures |r| <= |user| && r == user[|user| - |r|..]
    ensures |r| < |user| ==>
      var k := |user| - |r|;
      k >= 2 && user[k - 1] == '\\' && forall j :: 0 <= j < k - 1 ==> user[j] != '\n'
    ensures forall j :: 1 <= j < |user| && |user| - |r| <= j && user[j] == '\\' ==> '\n' in user[..j]
  {
    var n := LineEnd(user);
    LineFeedBefore(user);
    match LastBackslash(user, n)
    case None => user
    case Some(i) => user[i + 1..]
  }

  /** Every prefix reaching past the first line feed holds a line feed. */
  lemma LineFeedBefore(s: string)
    ensures forall j :: LineEnd(s) < j <= |s| ==> '\n' in s[..j]
  {
    var n := LineEnd(s);
    forall j | n < j <= |s| ensures '\n' in s[..j] {
      assert s[..j][n] == '\n';
    }
  }

  /** A name without a backslash is used as it is. */
  lemma StripDomainNoBackslash(user: string)
    requires forall j :: 0 <= j < |user| ==> user[j] != '\\'
    ensures StripDomain(user) == user
  {
  }

  /** A `DOMAIN\name` user name resolves to `name`, whenever the domain is
      non-empty and holds no line feed and the name holds no backslash. */
  lemma StripDomainQualified(domain: string, name: string)
    requires domain != [] && '\n' !in domain && '\\' !in name
    ensures StripDomain(domain + "\\" + name) == name
  {
    var user := domain + "\\" + name;
    var r := StripDomain(user);
    var d := |domain|;
    assert user[d] == '\\';
    assert user[..d] == domain;
    assert forall j :: d < j < |user| ==> user[j] == name[j - d - 1];
    assert |user| - |r| == d + 1;
    assert user[d + 1..] == name;
  }

  /** `CORP\jdoe` resolves to `jdoe`. */
  lemma StripDomainExample(s: string)
    requires s == "CORP\\jdoe"
    ensures StripDomain(s) == "jdoe"
  {
    assert s == "CORP" + "\\" + "jdoe";
    StripDomainQualified("CORP", "jdoe");
  }

  /** A lone leading backslash is not stripped: `.+` needs a character before
      it, so `\name` is used as it is when `name` holds no other backslash. */
  lemma StripDomainLeadingBackslash(name: string)
    requires '\\' !in name
    ensures StripDomain("\\" + name) == "\\" + name
  {
    var user := "\\" + name;
    assert forall j :: 1 <= j < |user| ==> user[j] == name[j - 1];
  }
}
