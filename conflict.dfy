/**
 * The conflict detector: a claim is taken to be blocked by a stale binding
 * when one of its status conditions, other than a Resizing condition,
 * carries the text "already bound" somewhere in its message. This is a
 * plain substring match on free text, not a structured check.
 */
module BindingConflict {
  import opened Types

  /** The phrase the detector looks for. */
  const AlreadyBound: string := "already bound"

  /** `p` stands in `s` starting at position `i`. */
  predicate OccursAt(s: string, p: string, i: int) {
    0 <= i <= |s| - |p| && s[i..i + |p|] == p
  }

  /** `p` occurs in `s` as a contiguous substring; the empty string occurs in every string. */
  predicate Contains(s: string, p: string) {
    exists i :: 0 <= i <= |s| - |p| && OccursAt(s, p, i)
  }

  /** One condition signals a conflict: it is not a Resizing condition and its message has the phrase. */
  predicate Signals(c: Condition) {
    c.kind != Resizing && Contains(c.message, AlreadyBound)
  }

  /** Some condition of the sequence signals a conflict. */
  predicate ConflictSignalled(conditions: seq<Condition>) {
    exists i :: 0 <= i < |conditions| && Signals(conditions[i])
  }

  /**
   * The detector as the source runs it: a scan of the conditions in order
   * that skips Resizing conditions and stops at the first message holding
   * the phrase.
   */
  method HasBindingConflict(pvc: Claim) returns (conflict: bool)
    ensures conflict == ConflictSignalled(pvc.conditions)
  {
    var conditions := pvc.conditions;
    for i := 0 to |conditions|
      invariant forall j :: 0 <= j < i ==> !Signals(conditions[j])
    {
      var cond := conditions[i];
      if cond.kind == Resizing {
        continue;
      }
      if Contains(cond.message, AlreadyBound) {
        return true;
      }
    }
    return false;
  }

  /** The phrase is found wherever it stands in a message. */
  lemma PhraseAnywhere(before: string, after: string)
    ensures Contains(before + AlreadyBound + after, AlreadyBound)
  {
    var s := before + AlreadyBound + after;
    assert s[|before|..|before| + |AlreadyBound|] == AlreadyBound;
    assert OccursAt(s, AlreadyBound, |before|);
  }

  /** Example: the match is case-sensitive, so a capitalised phrase is not recognised. */
  lemma CaseSensitive()
    ensures !Contains("Already bound", AlreadyBound)
  {
    assert "Already bound"[0] != AlreadyBound[0];
  }

  /**
   * A Resizing condition never counts, whatever its message: inserting one
   * anywhere leaves the verdict unchanged.
   */
  lemma ResizingIgnored(before: seq<Condition>, message: string, after: seq<Condition>)
    ensures ConflictSignalled(before + [Condition(Resizing, message)] + after)
        == ConflictSignalled(before + after)
  {
    var with := before + [Condition(Resizing, message)] + after;
    var without := before + after;
    if ConflictSignalled(with) {
      var i :| 0 <= i < |with| && Signals(with[i]);
      if i < |before| {
        assert without[i] == with[i];
      } else {
        assert i > |before|;
        assert without[i - 1] == with[i];
      }
    }
    if ConflictSignalled(without) {
      var i :| 0 <= i < |without| && Signals(without[i]);
      if i < |before| {
        assert with[i] == without[i];
      } else {
        assert with[i + 1] == without[i];
      }
    }
  }

  /** A claim signals a conflict exactly when one part of its condition list does. */
  lemma SignalledAppend(a: seq<Condition>, b: seq<Condition>)
    ensures ConflictSignalled(a + b) <==> ConflictSignalled(a) || ConflictSignalled(b)
  {
    var ab := a + b;
    if ConflictSignalled(a) {
      var i :| 0 <= i < |a| && Signals(a[i]);
      assert ab[i] == a[i];
    }
    if ConflictSignalled(b) {
      var i :| 0 <= i < |b| && Signals(b[i]);
      assert ab[|a| + i] == b[i];
    }
    if ConflictSignalled(ab) {
      var i :| 0 <= i < |ab| && Signals(ab[i]);
      if i < |a| {
        assert a[i] == ab[i];
      } else {
        assert b[i - |a|] == ab[i];
      }
    }
  }

  /**
   * A condition of any type other than Resizing whose message holds the
   * phrase anywhere signals a conflict, wherever it stands in the list.
   */
  lemma PhraseInConditionSignals(before: seq<Condition>, kind: string, pre: string, post: string, after: seq<Condition>)
    requires kind != Resizing
    ensures ConflictSignalled(before + [Condition(kind, pre + AlreadyBound + post)] + after)
  {
    var single := [Condition(kind, pre + AlreadyBound + post)];
    PhraseAnywhere(pre, post);
    assert Signals(single[0]);
    SignalledAppend(before, single);
    SignalledAppend(before + single, after);
  }
}
