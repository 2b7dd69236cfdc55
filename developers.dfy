/**
  The developer count of the usage reporter (`count_unique_developers`): the
  number of distinct email addresses of the users table once lower-cased.
 */
module Developers {
  import opened Text

  /** The lower-cased emails, as a set. */
  function LowerEmails(emails: seq<string>): set<string> {
    set e | e in emails :: Lower(e)
  }

  /** `len(users_df['email'].str.lower().unique())`. */
  function UniqueDevelopers(emails: seq<string>): (n: nat)
    ensures n <= |emails|
    ensures n == 0 <==> emails == []
  {
    ImageAtMostLength(emails);
    assert |emails| > 0 ==> Lower(emails[0]) in LowerEmails(emails);
    |LowerEmails(emails)|
  }

  lemma {:induction false} ImageAtMostLength(emails: seq<string>)
    ensures |LowerEmails(emails)| <= |emails|
    decreases |emails|
  {
    if |emails| > 0 {
      var init := emails[..|emails| - 1];
      ImageAtMostLength(init);
      assert LowerEmails(emails) == LowerEmails(init) + {Lower(emails[|emails| - 1])} by {
        assert emails == init + [emails[|emails| - 1]];
      }
    }
  }

  /**
    One more user: the count grows by one exactly when no earlier email has
    the same lower-case form, so emails differing only in case are one developer.
   */
  lemma OneMoreUser(emails: seq<string>, e: string)
    ensures UniqueDevelopers(emails + [e]) ==
            if exists f :: f in emails && Lower(f) == Lower(e) then UniqueDevelopers(emails)
            else UniqueDevelopers(emails) + 1
  {
    assert LowerEmails(emails + [e]) == LowerEmails(emails) + {Lower(e)};
    if Lower(e) in LowerEmails(emails) {
      var f :| f in emails && Lower(f) == Lower(e);
    }
  }

  /** The count depends only on which emails occur, not on their order or repetition. */
  lemma SameEmails(emails: seq<string>, emails': seq<string>)
    requires forall e :: e in emails <==> e in emails'
    ensures UniqueDevelopers(emails) == UniqueDevelopers(emails')
  {
    assert LowerEmails(emails) == LowerEmails(emails');
  }

  /** Emails already in lower case, all different: one developer each. */
  lemma DistinctLowerCaseEmails(emails: seq<string>)
    requires Distinct(emails)
    requires forall i :: 0 <= i < |emails| ==> Lower(emails[i]) == emails[i]
    ensures UniqueDevelopers(emails) == |emails|
  {
    assert LowerEmails(emails) == set e | e in emails by {
      forall e | e in emails ensures Lower(e) == e {
        var i :| 0 <= i < |emails| && emails[i] == e;
      }
    }
    DistinctCardinality(emails);
  }

  /** `Alice@x` and `alice@x` are one developer. */
  lemma CaseInsensitiveExample()
    ensures UniqueDevelopers(["Alice@x", "alice@x"]) == 1
  {
    var lower: string := "alice@x";
    var upper: string := "Alice@x";
    LowerKeepsLowerCase(lower[1..]);
    assert upper == ['A'] + lower[1..];
    assert Lower(upper) == [LowerChar('A')] + Lower(lower[1..]);
    assert LowerChar('A') == 'a';
    LowerKeepsLowerCase(lower);
    assert LowerEmails([upper, lower]) == {lower};
  }
}
