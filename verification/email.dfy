/**
 * The e-mail shape both the contact form and the live input check accept:
 * the regular expression `^[^\s@]+@[^\s@]+\.[^\s@]+$`, written by hand.
 */
module EmailPattern {
  import opened Wrappers
  import opened JsText

  /** One `[^\s@]+` run: non-empty, with no white space and no `@`. */
  predicate IsRun(s: string) {
    s != [] && forall k | 0 <= k < |s| :: !IsWhiteSpace(s[k]) && s[k] != '@'
  }

  /** What the regular expression means: `s` is `A@B.C` for runs A, B and C
      (the dot may be any dot after the `@` that leaves B and C non-empty). */
  ghost predicate IsAtDotAddress(s: string) {
    exists i, j | 0 < i && i + 1 < j && j + 1 < |s| ::
      s[i] == '@' && s[j] == '.' && IsRun(s[..i]) && IsRun(s[i + 1..j]) && IsRun(s[j + 1..])
  }

  /** Position of the first `c` in `s`. */
  function IndexOf(s: string, c: char): (r: Option<nat>)
    ensures r.Some? ==> r.value < |s| && s[r.value] == c && c !in s[..r.value]
    ensures r.None? ==> c !in s
  {
    if s == [] then None
    else if s[0] == c then Some(0)
    else match IndexOf(s[1..], c)
      case None => None
      case Some(i) => assert s[..i + 1] == [s[0]] + s[1..][..i]; Some(i + 1)
  }

  /** The check the pages run: a non-empty run before the first `@`, and after
      it a stretch with no white space and no `@` that has a dot with
      something on either side of it. */
  predicate IsEmail(s: string) {
    match IndexOf(s, '@')
    case None => false
    case Some(at) =>
      var domain := s[at + 1..];
      && IsRun(s[..at])
      && (forall k | 0 <= k < |domain| :: !IsWhiteSpace(domain[k]) && domain[k] != '@')
      && exists j | 0 < j < |domain| - 1 :: domain[j] == '.'
  }

  /** Every string the check accepts has the form `A@B.C`. */
  lemma EmailSound(s: string)
    requires IsEmail(s)
    ensures IsAtDotAddress(s)
  {
    var at := IndexOf(s, '@').value;
    var domain := s[at + 1..];
    var d :| 0 < d < |domain| - 1 && domain[d] == '.';
    var j := at + 1 + d;
    assert s[at + 1..j] == domain[..d];
    assert s[j + 1..] == domain[d + 1..];
    assert IsRun(s[at + 1..j]);
    assert IsRun(s[j + 1..]);
    assert s[at] == '@' && s[j] == '.';
  }

  /** The first `@` of `A@B.C` is the one after A. */
  lemma FirstAt(s: string, i: nat)
    requires i < |s| && s[i] == '@' && IsRun(s[..i])
    ensures IndexOf(s, '@') == Some(i)
  {
    assert s[..i + 1] == s[..i] + ['@'];
  }

  /** Every string of the form `A@B.C` passes the check. */
  lemma EmailComplete(s: string, i: nat, j: nat)
    requires 0 < i && i + 1 < j && j + 1 < |s|
    requires s[i] == '@' && s[j] == '.' && IsRun(s[..i]) && IsRun(s[i + 1..j]) && IsRun(s[j + 1..])
    ensures IsEmail(s)
  {
    FirstAt(s, i);
    var domain := s[i + 1..];
    forall k | 0 <= k < |domain|
      ensures !IsWhiteSpace(domain[k]) && domain[k] != '@'
    {
      if i + 1 + k < j {
        assert domain[k] == s[i + 1..j][k];
      } else if i + 1 + k > j {
        assert domain[k] == s[j + 1..][k - (j - i)];
      }
    }
    assert domain[j - i - 1] == '.';
  }

  /** The hand-written check accepts exactly the strings of the form `A@B.C`. */
  lemma EmailIff(s: string)
    ensures IsEmail(s) <==> IsAtDotAddress(s)
  {
    if IsEmail(s) {
      EmailSound(s);
    }
    if IsAtDotAddress(s) {
      var i, j :| 0 < i && i + 1 < j && j + 1 < |s| && s[i] == '@' && s[j] == '.'
                 && IsRun(s[..i]) && IsRun(s[i + 1..j]) && IsRun(s[j + 1..]);
      EmailComplete(s, i, j);
    }
  }

  lemma EmailExamples()
    ensures IsEmail("a@b.co")
    ensures !IsEmail("bad")
  {
    EmailComplete("a@b.co", 1, 3);
    assert IndexOf("bad", '@') == None;
  }
}
