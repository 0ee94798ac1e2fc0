/** The correlation tag that links a Redmine time entry to the Toggl entry it was
    synced from: the Redmine comment is the Toggl description followed by
    ` [<toggl id>]`, and a Redmine entry belongs to a Toggl entry when its comment
    ends with `[<toggl id>]`. */
module CorrelationKey {
  import opened Seqs
  import opened Decimal
  import opened ApiTypes

  /** `[<id>]`. */
  function Tag(id: nat): (r: string)
    ensures |r| >= 3 && r[0] == '[' && r[|r| - 1] == ']' && AllDigits(r[1..|r| - 1])
  {
    "[" + NatToString(id) + "]"
  }

  /** `matchesBySuffixKey`. */
  predicate MatchesBySuffixKey(redmineTimeEntry: RedmineTimeEntry, togglEntry: TogglEntry)
  {
    EndsWith(redmineTimeEntry.comments, Tag(togglEntry.id))
  }

  /** `getRedmineTimeEntryDescriptionWithKey`: the description, a space, and the tag. */
  function DescriptionWithKey(togglEntry: TogglEntry): (r: string)
    ensures StartsWith(r, togglEntry.description)
    ensures EndsWith(r, Tag(togglEntry.id))
    ensures |r| == |togglEntry.description| + 1 + |Tag(togglEntry.id)|
    ensures r[|togglEntry.description|] == ' '
  {
    togglEntry.description + " " + Tag(togglEntry.id)
  }

  /** The tags of two ids can both end one comment only when the ids are equal:
      a `[` can never stand where a digit of a longer tag is. */
  lemma {:induction false} TagsSuffixUnique(comment: string, a: nat, b: nat)
    requires EndsWith(comment, Tag(a)) && EndsWith(comment, Tag(b))
    ensures a == b
  {
    var ta, tb := Tag(a), Tag(b);
    var n := |comment|;
    if |ta| != |tb| {
      // the '[' of the shorter tag would face a digit of the longer one
      assert false;
    } else {
      assert ta == tb;
      assert NatToString(a) == ta[1..|ta| - 1] == tb[1..|tb| - 1] == NatToString(b);
      NatToStringInjective(a, b);
    }
  }

  /** A Redmine comment suffix-matches at most one Toggl id. */
  lemma MatchesAtMostOneId(e: RedmineTimeEntry, t1: TogglEntry, t2: TogglEntry)
    requires MatchesBySuffixKey(e, t1) && MatchesBySuffixKey(e, t2)
    ensures t1.id == t2.id
  {
    TagsSuffixUnique(e.comments, t1.id, t2.id);
  }

  /** Round trip: an entry whose comment was written from a Toggl entry matches exactly
      the Toggl entries with that id. */
  lemma KeyedCommentMatches(e: RedmineTimeEntry, t: TogglEntry, other: TogglEntry)
    requires e.comments == DescriptionWithKey(t)
    ensures MatchesBySuffixKey(e, t)
    ensures MatchesBySuffixKey(e, other) <==> other.id == t.id
  {
    if MatchesBySuffixKey(e, other) {
      MatchesAtMostOneId(e, t, other);
    }
  }

  /** The description can be read back from the written comment. */
  lemma DescriptionRecoverable(t: TogglEntry)
    ensures var c := DescriptionWithKey(t);
            c[..|c| - |Tag(t.id)| - 1] == t.description
  {
  }

  /** The regular expression `/\[[0-9]+\]/` finds a match somewhere in `s`. */
  predicate ContainsBracketedNumber(s: string)
  {
    exists i, j :: 0 <= i && i + 1 < j < |s| && s[i] == '[' && s[j] == ']' && AllDigits(s[i + 1..j])
  }

  /** A comment carrying a correlation tag is one the orphan search looks at. */
  lemma MatchingCommentIsBracketed(e: RedmineTimeEntry, t: TogglEntry)
    requires MatchesBySuffixKey(e, t)
    ensures ContainsBracketedNumber(e.comments)
  {
    var c, tag := e.comments, Tag(t.id);
    var i, j := |c| - |tag|, |c| - 1;
    assert c[i..] == tag;
    assert c[i + 1..j] == tag[1..|tag| - 1];
  }
}
