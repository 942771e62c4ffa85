/** Client-side validation of the contact form (`validateForm` and its e-mail pattern). */
module ContactForm {
  import opened Js

  /** A character the pattern's class `[^\s@]` admits. */
  predicate PatternChar(c: char)
  {
    !IsWhiteSpace(c) && c != '@'
  }

  /** A non-empty run of `[^\s@]+`. */
  predicate PatternRun(s: string)
  {
    |s| > 0 && forall k | 0 <= k < |s| :: PatternChar(s[k])
  }

  /**
   * The language of `/^[^\s@]+@[^\s@]+\.[^\s@]+$/`, read off the pattern: the whole string is a
   * run, an `@` at `i`, a run, a `.` at `j`, and a run.
   */
  ghost predicate MatchesEmailPattern(s: string)
  {
    exists i, j | 0 <= i < j < |s| ::
      s[i] == '@' && s[j] == '.' && PatternRun(s[..i]) && PatternRun(s[i + 1..j]) && PatternRun(s[j + 1..])
  }

  /** How often `c` occurs in `s`. */
  function CountOf(s: string, c: char): nat
  {
    if s == [] then 0 else (if s[0] == c then 1 else 0) + CountOf(s[1..], c)
  }

  /** The first index of `c` in `s`, or `|s|` when it does not occur. */
  function IndexOf(s: string, c: char): (r: nat)
    ensures r <= |s|
    ensures forall k | 0 <= k < r :: s[k] != c
    ensures r < |s| ==> s[r] == c
  {
    if s == [] then 0 else if s[0] == c then 0 else 1 + IndexOf(s[1..], c)
  }

  /** Some `.` in `domain` has at least one character before it and one after it. */
  predicate HasInnerDot(domain: string)
  {
    exists k | 0 < k < |domain| - 1 :: domain[k] == '.'
  }

  /**
   * The e-mail check as a plain string predicate: no white space anywhere, exactly one `@`,
   * a non-empty local part before it, and an inner `.` in the domain after it.
   */
  predicate IsEmail(s: string)
  {
    && (forall k | 0 <= k < |s| :: !IsWhiteSpace(s[k]))
    && CountOf(s, '@') == 1
    && var at := IndexOf(s, '@');
       at > 0 && at < |s| && HasInnerDot(s[at + 1..])
  }

  lemma {:induction false} CountOfAppend(a: string, b: string, c: char)
    ensures CountOf(a + b, c) == CountOf(a, c) + CountOf(b, c)
  {
    if a != [] {
      assert (a + b)[0] == a[0];
      assert (a + b)[1..] == a[1..] + b;
      CountOfAppend(a[1..], b, c);
    } else {
      assert a + b == b;
    }
  }

  lemma {:induction false} CountOfZero(s: string, c: char)
    ensures CountOf(s, c) == 0 <==> forall k | 0 <= k < |s| :: s[k] != c
  {
    if s != [] {
      CountOfZero(s[1..], c);
      assert forall k | 1 <= k < |s| :: s[k] == s[1..][k - 1];
    }
  }

  /** Every string the predicate accepts is in the language of the regular expression. */
  lemma EmailPredicateSound(s: string)
    requires IsEmail(s)
    ensures MatchesEmailPattern(s)
  {
    var i := IndexOf(s, '@');
    CountedOnceOccursOnce(s, '@');
    var d := s[i + 1..];
    var k :| 0 < k < |d| - 1 && d[k] == '.';
    var j := i + 1 + k;
    assert s[j] == d[k];
    SliceAvoidingAtIsPatternRun(s, i, 0, i);
    SliceAvoidingAtIsPatternRun(s, i, i + 1, j);
    SliceAvoidingAtIsPatternRun(s, i, j + 1, |s|);
    assert s[0..i] == s[..i] && s[j + 1..|s|] == s[j + 1..];
  }

  /** A character counted once occurs at its first index and nowhere else. */
  lemma {:induction false} CountedOnceOccursOnce(s: string, c: char)
    requires CountOf(s, c) == 1
    ensures IndexOf(s, c) < |s|
    ensures forall m | 0 <= m < |s| && m != IndexOf(s, c) :: s[m] != c
  {
    var tail := s[1..];
    if s[0] == c {
      CountOfZero(tail, c);
      forall m | 1 <= m < |s| ensures s[m] != c {
        assert s[m] == tail[m - 1];
      }
    } else {
      CountedOnceOccursOnce(tail, c);
      forall m | 1 <= m < |s| && m != IndexOf(s, c) ensures s[m] != c {
        assert s[m] == tail[m - 1];
      }
    }
  }

  /** In a string without white space whose only `@` is at `i`, any non-empty slice avoiding `i` is a run. */
  lemma SliceAvoidingAtIsPatternRun(s: string, i: nat, lo: nat, hi: nat)
    requires lo < hi <= |s| && (i < lo || hi <= i)
    requires forall m | 0 <= m < |s| :: !IsWhiteSpace(s[m])
    requires forall m | 0 <= m < |s| && m != i :: s[m] != '@'
    ensures PatternRun(s[lo..hi])
  {
    assert forall m | 0 <= m < hi - lo :: s[lo..hi][m] == s[lo + m];
  }

  /** A character that occurs only at `i` is counted once and first found at `i`. */
  lemma OnlyOccurrence(s: string, c: char, i: nat)
    requires i < |s| && s[i] == c
    requires forall k | 0 <= k < |s| && k != i :: s[k] != c
    ensures CountOf(s, c) == 1 && IndexOf(s, c) == i
  {
    var d := s[i + 1..];
    assert s == s[..i] + ([s[i]] + d);
    CountOfAppend(s[..i], [s[i]] + d, c);
    CountOfAppend([s[i]], d, c);
    assert forall k | 0 <= k < i :: s[..i][k] == s[k];
    CountOfZero(s[..i], c);
    assert forall k | 0 <= k < |d| :: d[k] == s[i + 1 + k];
    CountOfZero(d, c);
  }

  /** Every string in the language of the regular expression is accepted by the predicate. */
  lemma EmailPredicateComplete(s: string)
    requires MatchesEmailPattern(s)
    ensures IsEmail(s)
  {
    var i, j :| 0 <= i < j < |s| && s[i] == '@' && s[j] == '.' &&
                PatternRun(s[..i]) && PatternRun(s[i + 1..j]) && PatternRun(s[j + 1..]);
    PatternCharsOutsideSeparators(s, i, j);
    assert !IsWhiteSpace('@') && !IsWhiteSpace('.');
    assert forall k | 0 <= k < |s| :: !IsWhiteSpace(s[k]);
    assert forall k | 0 <= k < |s| && k != i :: s[k] != '@';
    OnlyOccurrence(s, '@', i);
    var domain := s[i + 1..];
    assert domain[j - i - 1] == '.';
    assert HasInnerDot(domain);
  }

  /** In a string matching the pattern, every character but the two separators is a pattern character. */
  lemma PatternCharsOutsideSeparators(s: string, i: nat, j: nat)
    requires i < j < |s| && PatternRun(s[..i]) && PatternRun(s[i + 1..j]) && PatternRun(s[j + 1..])
    ensures forall k | 0 <= k < |s| && k != i && k != j :: PatternChar(s[k])
  {
    var local, mid, tld := s[..i], s[i + 1..j], s[j + 1..];
    forall k | 0 <= k < |s| && k != i && k != j ensures PatternChar(s[k]) {
      if k < i {
        assert s[k] == local[k];
      } else if k < j {
        assert s[k] == mid[k - i - 1];
      } else {
        assert s[k] == tld[k - j - 1];
      }
    }
  }

  /** The string predicate decides exactly the language of the regular expression. */
  lemma EmailPredicateMatchesPattern(s: string)
    ensures IsEmail(s) <==> MatchesEmailPattern(s)
  {
    if IsEmail(s) {
      EmailPredicateSound(s);
    }
    if MatchesEmailPattern(s) {
      EmailPredicateComplete(s);
    }
  }

  /** The form fields as `Object.fromEntries(new FormData(form))` yields them: a missing key is `undefined`. */
  type FormData = map<string, string>

  /** `!data[key]`: the field is `undefined` or the empty string. */
  predicate Falsy(data: FormData, key: string)
  {
    key !in data || data[key] == ""
  }

  /** `!data[key] || data[key].trim() === ''`. */
  predicate Blank(data: FormData, key: string)
  {
    Falsy(data, key) || Trim(data[key]) == ""
  }

  /**
   * `validateForm`: name, subject and message must hold a non-blank value and the e-mail must
   * match the pattern; the checks run in the source's order, returning false at the first failure.
   */
  predicate ValidateForm(data: FormData)
  {
    if Blank(data, "name") then false
    else if Falsy(data, "email") || !IsEmail(data["email"]) then false
    else if Blank(data, "subject") then false
    else if Blank(data, "message") then false
    else true
  }

  /** The form passes exactly when every field is present and meaningful, the e-mail by the regular expression's language. */
  lemma ValidateFormIff(data: FormData)
    ensures ValidateForm(data) <==>
      && "name" in data && HasText(data["name"])
      && "email" in data && MatchesEmailPattern(data["email"])
      && "subject" in data && HasText(data["subject"])
      && "message" in data && HasText(data["message"])
  {
    FilledIffHasText(data, "name");
    FilledIffHasText(data, "subject");
    FilledIffHasText(data, "message");
    if "email" in data {
      EmailPredicateMatchesPattern(data["email"]);
    }
  }

  /** A field passes the blank check exactly when it is present and holds a non-space character. */
  lemma FilledIffHasText(data: FormData, key: string)
    ensures !Blank(data, key) <==> key in data && HasText(data[key])
  {
    if key in data {
      TrimEmptyIff(data[key]);
    }
  }

  /** An empty e-mail field fails the same way an absent one does. */
  lemma EmptyEmailFails(data: FormData)
    requires "email" in data && data["email"] == ""
    ensures !ValidateForm(data)
  {
  }

  lemma AcceptsWellFormedSubmission()
    ensures ValidateForm(map["name" := "A", "email" := "a@b.com", "subject" := "S", "message" := "M"])
  {
    var data := map["name" := "A", "email" := "a@b.com", "subject" := "S", "message" := "M"];
    SampleEmailAccepted();
    ValidateFormIff(data);
    assert !IsWhiteSpace(data["name"][0]) && !IsWhiteSpace(data["subject"][0]) && !IsWhiteSpace(data["message"][0]);
  }

  lemma SampleEmailAccepted()
    ensures MatchesEmailPattern("a@b.com")
  {
    var e := "a@b.com";
    assert forall k | 0 <= k < |e| :: !IsWhiteSpace(e[k]) && (k != 1 ==> e[k] != '@');
    OnlyOccurrence(e, '@', 1);
    assert e[2..][1] == '.';
    EmailPredicateSound(e);
  }

  lemma RejectsEmptyName()
    ensures !ValidateForm(map["name" := "", "email" := "a@b.com", "subject" := "S", "message" := "M"])
  {
    var data := map["name" := "", "email" := "a@b.com", "subject" := "S", "message" := "M"];
    assert data["name"] == "";
  }

  lemma RejectsBlankName()
    ensures !ValidateForm(map["name" := " \t", "email" := "a@b.com", "subject" := "S", "message" := "M"])
  {
    var data := map["name" := " \t", "email" := "a@b.com", "subject" := "S", "message" := "M"];
    assert data["name"] == " \t";
    FilledIffHasText(data, "name");
  }

  lemma RejectsMalformedEmail()
    ensures !ValidateForm(map["name" := "A", "email" := "not-an-email", "subject" := "S", "message" := "M"])
  {
    var data := map["name" := "A", "email" := "not-an-email", "subject" := "S", "message" := "M"];
    var e := "not-an-email";
    assert data["email"] == e;
    assert forall k | 0 <= k < |e| :: e[k] != '@';
    CountOfZero(e, '@');
    assert !IsEmail(e);
  }

  lemma RejectsMissingMessage()
    ensures !ValidateForm(map["name" := "A", "email" := "a@b.com", "subject" := "S"])
  {
    var data := map["name" := "A", "email" := "a@b.com", "subject" := "S"];
    assert "message" !in data;
    assert Blank(data, "message");
  }

  lemma RejectsDotlessDomain()
    ensures !IsEmail("a@b.")
  {
  }

  lemma RejectsEmptyLocalPart()
    ensures !IsEmail("@b.com")
  {
  }

  lemma RejectsSecondAt()
    ensures !IsEmail("a@b@c.com")
  {
  }
}
