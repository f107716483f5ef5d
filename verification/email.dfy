/** The email validator of the get-updates flow: the regular expression
    `^[^\s@]+@[^\s@]+\.[^\s@]+$` tested against the whole prompted string. */
module Email {
  import opened Wrappers

  /** JavaScript's `\s`: the WhiteSpace and LineTerminator code points of
      ECMAScript (tab, line feed, vertical tab, form feed, carriage return,
      space, no-break space, the byte-order mark, and the Unicode space
      separators). No printable ASCII character other than the space is
      whitespace, so letters, digits, `@` and `.` never are. */
  predicate IsWhitespace(c: char)
    ensures IsWhitespace(c) ==> c == ' ' || c < ' ' || '~' < c
  {
    c == '\t' || c == '\n' || c == '\U{000B}' || c == '\U{000C}' || c == '\r'
    || c == ' ' || c == '\U{00A0}' || c == '\U{1680}'
    || ('\U{2000}' <= c <= '\U{200A}')
    || c == '\U{2028}' || c == '\U{2029}' || c == '\U{202F}' || c == '\U{205F}'
    || c == '\U{3000}' || c == '\U{FEFF}'
  }

  /** The character class `[^\s@]`. */
  predicate IsAtomChar(c: char) {
    !IsWhitespace(c) && c != '@'
  }

  /** Every character of `s` belongs to `[^\s@]` (the empty string included). */
  predicate IsAtom(s: string) {
    forall k :: 0 <= k < |s| ==> IsAtomChar(s[k])
  }

  /** The part before the `@`: `[^\s@]+`. */
  predicate ValidLocal(local: string) {
    |local| > 0 && IsAtom(local)
  }

  /** The part after the `@`: `[^\s@]+\.[^\s@]+`, that is, no whitespace and no
      `@`, with a dot that is neither the first nor the last character. */
  predicate ValidDomain(domain: string) {
    IsAtom(domain) && |domain| >= 3 && '.' in domain[1..|domain| - 1]
  }

  /** The position of the first occurrence of `c` in `s`, if any. */
  function FirstIndex(s: string, c: char): (r: Option<nat>)
    ensures r.Some? ==> r.value < |s| && s[r.value] == c && c !in s[..r.value]
    ensures r.None? ==> c !in s
  {
    if |s| == 0 then None
    else if s[0] == c then Some(0)
    else
      match FirstIndex(s[1..], c)
      case None => None
      case Some(i) => Some(i + 1)
  }

  /** The deterministic reading of the pattern: split at the first `@`; the
      part before it must be a valid local part and the part after it a valid
      domain. */
  predicate FirstAtSplit(s: string) {
    match FirstIndex(s, '@')
    case None => false
    case Some(i) => ValidLocal(s[..i]) && ValidDomain(s[i + 1..])
  }

  /** The literal reading of the regular expression: three non-empty runs of
      `[^\s@]` separated by a literal `@` and a literal `.`, anchored at both
      ends. */
  ghost predicate RegexMatches(s: string) {
    exists i, j | 0 < i && i + 1 < j && j + 1 < |s| ::
      s[i] == '@' && s[j] == '.'
      && IsAtom(s[..i]) && IsAtom(s[i + 1..j]) && IsAtom(s[j + 1..])
  }

  /** `FirstIndex` is determined by its contract: an occurrence with no earlier
      occurrence is the first one. */
  lemma FirstIndexUnique(s: string, c: char, i: nat)
    requires i < |s| && s[i] == c && c !in s[..i]
    ensures FirstIndex(s, c) == Some(i)
  {
    var r := FirstIndex(s, c);
    assert s[i] in s;
  }

  /** Every string the first-`@` split accepts matches the regular expression. */
  lemma SplitImpliesRegex(s: string)
    requires FirstAtSplit(s)
    ensures RegexMatches(s)
  {
    var i := FirstIndex(s, '@').value;
    var d := s[i + 1..];
    assert '.' in d[1..|d| - 1];
    var m :| 1 <= m < |d| - 1 && d[m] == '.';
    var j := i + 1 + m;
    assert s[j] == '.';
    var mid, tail := s[i + 1..j], s[j + 1..];
    assert IsAtom(mid) by {
      forall k | 0 <= k < |mid| ensures IsAtomChar(mid[k]) {
        assert mid[k] == d[k];
      }
    }
    assert IsAtom(tail) by {
      forall k | 0 <= k < |tail| ensures IsAtomChar(tail[k]) {
        assert tail[k] == d[m + 1 + k];
      }
    }
  }

  /** Every string the regular expression matches is accepted by the first-`@`
      split. */
  lemma RegexImpliesSplit(s: string, i: nat, j: nat)
    requires 0 < i && i + 1 < j && j + 1 < |s|
    requires s[i] == '@' && s[j] == '.'
    requires IsAtom(s[..i]) && IsAtom(s[i + 1..j]) && IsAtom(s[j + 1..])
    ensures FirstAtSplit(s)
  {
    var local, mid, tail := s[..i], s[i + 1..j], s[j + 1..];
    assert '@' !in local by {
      forall k | 0 <= k < i ensures local[k] != '@' {
        assert IsAtomChar(local[k]);
      }
    }
    FirstIndexUnique(s, '@', i);
    var d := s[i + 1..];
    assert IsAtom(d) by {
      forall k | 0 <= k < |d| ensures IsAtomChar(d[k]) {
        if i + 1 + k < j {
          assert d[k] == mid[k];
        } else if i + 1 + k > j {
          assert d[k] == tail[i + k - j];
        }
      }
    }
    var m := j - (i + 1);
    assert d[1..|d| - 1][m - 1] == '.';
  }

  /** The first-`@` split accepts exactly the strings the regular expression
      matches. */
  lemma SplitIffRegex(s: string)
    ensures FirstAtSplit(s) <==> RegexMatches(s)
  {
    if FirstAtSplit(s) {
      SplitImpliesRegex(s);
    }
    if RegexMatches(s) {
      var i, j :| 0 < i && i + 1 < j && j + 1 < |s|
        && s[i] == '@' && s[j] == '.'
        && IsAtom(s[..i]) && IsAtom(s[i + 1..j]) && IsAtom(s[j + 1..]);
      RegexImpliesSplit(s, i, j);
    }
  }

  /** `isValidEmail`: the pattern's `test` on the whole string, decided by the
      first-`@` split. */
  predicate IsValidEmail(s: string)
    ensures IsValidEmail(s) <==> RegexMatches(s)
  {
    SplitIffRegex(s);
    FirstAtSplit(s)
  }

  /** An address assembled from a local part, `@` and a domain is accepted
      exactly when both parts are well formed; this holds for every split,
      including a local part that itself contains an `@`. */
  lemma Characterization(local: string, domain: string)
    ensures IsValidEmail(local + "@" + domain) <==> ValidLocal(local) && ValidDomain(domain)
  {
    var s := local + "@" + domain;
    if '@' in local {
      var p :| 0 <= p < |local| && local[p] == '@';
      assert !IsAtomChar(local[p]);
      var r := FirstIndex(s, '@');
      assert s[p] == '@';
      if r.Some? && r.value < |local| {
        var i := r.value;
        assert s[i + 1..][|local| - i - 1] == '@';
        assert !IsAtomChar(s[i + 1..][|local| - i - 1]);
      }
    } else {
      assert s[..|local|] == local;
      assert s[|local| + 1..] == domain;
      FirstIndexUnique(s, '@', |local|);
    }
  }

  /** A domain part is usable exactly when it has a dot at a position other
      than its first and last: `a@b` (no dot), `a@.b` (dot first) and `a@b.`
      (dot last) are all rejected. */
  lemma DotPlacement(local: string, domain: string)
    requires ValidLocal(local) && IsAtom(domain)
    ensures IsValidEmail(local + "@" + domain)
        <==> exists j :: 0 < j < |domain| - 1 && domain[j] == '.'
  {
    Characterization(local, domain);
    if exists j :: 0 < j < |domain| - 1 && domain[j] == '.' {
      var j :| 0 < j < |domain| - 1 && domain[j] == '.';
      assert domain[1..|domain| - 1][j - 1] == '.';
    }
  }

  /** No accepted address contains a whitespace character. */
  lemma WhitespaceRejected(s: string, k: nat)
    requires k < |s| && IsWhitespace(s[k])
    ensures !IsValidEmail(s)
  {
    match FirstIndex(s, '@')
    case None =>
    case Some(i) =>
      if k < i {
        assert !IsAtomChar(s[..i][k]);
      } else if k > i {
        assert !IsAtomChar(s[i + 1..][k - i - 1]);
      }
  }

  /** Every accepted address contains exactly one `@`. */
  lemma ExactlyOneAt(s: string)
    requires IsValidEmail(s)
    ensures multiset(s)['@'] == 1
  {
    var i := FirstIndex(s, '@').value;
    assert s == s[..i] + [s[i]] + s[i + 1..];
    NoAtInAtom(s[..i]);
    NoAtInAtom(s[i + 1..]);
  }

  /** An atom has no `@`. */
  lemma NoAtInAtom(t: string)
    requires IsAtom(t)
    ensures multiset(t)['@'] == 0
  {
    assert '@' !in t by {
      forall k | 0 <= k < |t| ensures t[k] != '@' {
        assert IsAtomChar(t[k]);
      }
    }
  }

  /** The shortest accepted address has five characters, as in `a@b.c`. */
  lemma ShortestAccepted(s: string)
    requires IsValidEmail(s)
    ensures |s| >= 5
  {
  }

  /** The dot must sit strictly inside the domain: no dot, a leading dot and a
      trailing dot are all rejected. */
  lemma MisplacedDotRejected()
    ensures !IsValidEmail("a@b")
    ensures !IsValidEmail("a@.b")
    ensures !IsValidEmail("a@b.")
  {
    Characterization("a", "b");
    Characterization("a", ".b");
    Characterization("a", "b.");
  }

  /** The smallest accepted shape, and a domain whose run after the dot is
      itself a dot, which the pattern also accepts. */
  lemma MinimalAccepted()
    ensures IsValidEmail("a@b.c")
    ensures IsValidEmail("a@b..")
  {
    var s, t := "a@b.c", "a@b..";
    assert s[..1] == "a" && s[2..3] == "b" && s[4..] == "c";
    RegexImpliesSplit(s, 1, 3);
    assert t[..1] == "a" && t[2..3] == "b" && t[4..] == ".";
    RegexImpliesSplit(t, 1, 3);
  }

  /** An empty local part and a second `@` are rejected. */
  lemma AtPlacementRejected()
    ensures !IsValidEmail("@b.c")
    ensures !IsValidEmail("a@b@c.d")
  {
    Characterization("", "b.c");
    Characterization("a", "b@c.d");
    assert !IsAtomChar("b@c.d"[1]);
  }
}
