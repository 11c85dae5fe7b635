/** The email check of the row validator: the whole-string match of the
    pattern `^[\w-.]+@([\w-]+\.)+[\w-]{2,4}$` under `java.util.regex` without
    the Unicode flag, where `\w` is `[A-Za-z0-9_]` and a `-` inside the
    brackets is a literal hyphen.

    `Matches` is the check written out over characters; `InLanguage` is the
    pattern read as the set of strings it denotes; `MatchesIsLanguage`
    proves the two agree on every string. */
module Email {
  import opened Text

  /** `\w` in ASCII mode. */
  predicate IsWordChar(c: char) {
    'A' <= c <= 'Z' || 'a' <= c <= 'z' || '0' <= c <= '9' || c == '_'
  }

  /** `[\w-.]`, the local-part class. */
  predicate IsLocalChar(c: char) {
    IsWordChar(c) || c == '-' || c == '.'
  }

  /** `[\w-]`, the domain-label class. */
  predicate IsLabelChar(c: char) {
    IsWordChar(c) || c == '-'
  }

  /** `[\w-.]+` */
  predicate IsLocalPart(s: string) {
    |s| >= 1 && forall i :: 0 <= i < |s| ==> IsLocalChar(s[i])
  }

  /** `[\w-]+` */
  predicate IsLabel(s: string) {
    |s| >= 1 && forall i :: 0 <= i < |s| ==> IsLabelChar(s[i])
  }

  /** `[\w-]{2,4}` */
  predicate IsTopLabel(s: string) {
    2 <= |s| <= 4 && forall i :: 0 <= i < |s| ==> IsLabelChar(s[i])
  }

  /** The domain after the `@`: split on dots, every part but the last is a
      label and the last, after at least one dot, is a top label. */
  predicate DomainMatches(domain: string) {
    var labels := Split(domain, '.');
    && |labels| >= 2
    && (forall k :: 0 <= k < |labels| - 1 ==> IsLabel(labels[k]))
    && IsTopLabel(labels[|labels| - 1])
  }

  /** The check itself: exactly one `@`, a local part before it and a
      matching domain after it. */
  predicate Matches(email: string) {
    var halves := Split(email, '@');
    |halves| == 2 && IsLocalPart(halves[0]) && DomainMatches(halves[1])
  }

  /** The string the pattern builds from a local part, the labels each
      followed by a dot, and the top label. */
  function Compose(local: string, labels: seq<string>, top: string): string {
    local + "@" + Terminated(labels, '.') + top
  }

  /** The pattern as a language: the strings that some local part, some
      non-empty list of labels and some top label compose. */
  ghost predicate InLanguage(s: string) {
    exists local, labels, top ::
      && Compose(local, labels, top) == s
      && IsLocalPart(local)
      && |labels| >= 1
      && (forall k :: 0 <= k < |labels| ==> IsLabel(labels[k]))
      && IsTopLabel(top)
  }

  /** The character-level check accepts exactly the strings of the pattern. */
  lemma MatchesIsLanguage(s: string)
    ensures Matches(s) <==> InLanguage(s)
  {
    if Matches(s) {
      MatchesGivesLanguage(s);
    }
    if InLanguage(s) {
      var local, labels, top :|
        && Compose(local, labels, top) == s
        && IsLocalPart(local)
        && |labels| >= 1
        && (forall k :: 0 <= k < |labels| ==> IsLabel(labels[k]))
        && IsTopLabel(top);
      LanguageGivesMatch(local, labels, top);
    }
  }

  lemma MatchesGivesLanguage(s: string)
    requires Matches(s)
    ensures InLanguage(s)
  {
    var halves := Split(s, '@');
    JoinSplit(s, '@');
    assert s == halves[0] + "@" + halves[1];
    var parts := Split(halves[1], '.');
    JoinSplit(halves[1], '.');
    var labels := parts[..|parts| - 1];
    var top := parts[|parts| - 1];
    assert parts == labels + [top];
    JoinAsTerminated(labels, top, '.');
    assert Compose(halves[0], labels, top) == s;
    assert forall k :: 0 <= k < |labels| ==> IsLabel(labels[k]) by {
      forall k | 0 <= k < |labels| ensures IsLabel(labels[k]) {
        assert labels[k] == parts[k];
      }
    }
  }

  lemma LanguageGivesMatch(local: string, labels: seq<string>, top: string)
    requires IsLocalPart(local)
    requires |labels| >= 1
    requires forall k :: 0 <= k < |labels| ==> IsLabel(labels[k])
    requires IsTopLabel(top)
    ensures Matches(Compose(local, labels, top))
  {
    var parts := labels + [top];
    forall k | 0 <= k < |parts|
      ensures '.' !in parts[k] && '@' !in parts[k]
    {
      if k < |labels| {
        assert parts[k] == labels[k];
        assert forall i :: 0 <= i < |labels[k]| ==> IsLabelChar(labels[k][i]);
      } else {
        assert parts[k] == top;
      }
    }
    var domain := Join(parts, '.');
    JoinAsTerminated(labels, top, '.');
    SplitJoin(parts, '.');
    JoinKeepsOut(parts, '.', '@');
    assert '@' !in local by {
      assert forall i :: 0 <= i < |local| ==> IsLocalChar(local[i]);
    }
    assert Compose(local, labels, top) == Join([local, domain], '@');
    SplitJoin([local, domain], '@');
    assert parts[..|parts| - 1] == labels;
  }
}
