/**
 * The two selection lists, "skills to learn" and "skills to teach": the list transforms that
 * the application hands to `setSkillsToLearn`/`setSkillsToTeach`. The Learn and Teach
 * versions of each handler are the same code on different lists, so each is modelled once.
 */
module Selection {
  import opened Sequences

  /** `addSkillFromSearchLearn/Teach` (src/App.js:155-164): the name is appended unless the
      list already holds it. */
  function AddSkillFromSearch(prev: seq<string>, name: string): (r: seq<string>)
    ensures name in r
    ensures |prev| <= |r| && r[..|prev|] == prev
    ensures r == prev <==> name in prev
    ensures forall x :: x in r <==> x in prev || x == name
    ensures NoDuplicates(prev) ==> NoDuplicates(r)
  {
    if name in prev then prev else prev + [name]
  }

  /** Adding the same name twice is the same as adding it once. */
  lemma AddSkillFromSearchIdempotent(prev: seq<string>, name: string)
    ensures AddSkillFromSearch(AddSkillFromSearch(prev, name), name) == AddSkillFromSearch(prev, name)
  {
    var once := AddSkillFromSearch(prev, name);
    assert name in once;
  }

  /** The list after the names in `picked` have been merged into `prev` one after another,
      each only when the list does not yet hold it. */
  function Merged(prev: seq<string>, picked: seq<string>): (r: seq<string>)
    ensures |prev| <= |r| && r[..|prev|] == prev
    ensures forall x :: x in r <==> x in prev || x in picked
    ensures forall k :: |prev| <= k < |r| ==> r[k] !in prev
    ensures NoDuplicates(r[|prev|..])
    ensures NoDuplicates(prev) ==> NoDuplicates(r)
    decreases |picked|
  {
    if picked == [] then prev
    else
      var next := AddSkillFromSearch(prev, picked[0]);
      var r := Merged(next, picked[1..]);
      assert forall x :: x in picked <==> x == picked[0] || x in picked[1..];
      PrefixOfPrefix(prev, next, r);
      assert forall k :: |prev| <= k < |next| ==> r[k] == next[k] == picked[0];
      assert next[|prev|..] == [] || next[|prev|..] == [picked[0]];
      AppendedNoDuplicates(prev, next, r);
      NoDuplicatesExtend(prev, r);
      r
  }

  /** A list without duplicates stays so when the names after it are distinct and new. */
  lemma NoDuplicatesExtend(prev: seq<string>, r: seq<string>)
    requires |prev| <= |r| && r[..|prev|] == prev
    requires NoDuplicates(r[|prev|..])
    requires forall k :: |prev| <= k < |r| ==> r[k] !in prev
    ensures NoDuplicates(prev) ==> NoDuplicates(r)
  {
    forall i, j | NoDuplicates(prev) && 0 <= i < j < |r|
      ensures r[i] != r[j]
    {
      if j < |prev| {
        assert r[i] == prev[i] && r[j] == prev[j];
      } else if i < |prev| {
        assert r[i] == prev[i];
      } else {
        assert r[i] == r[|prev|..][i - |prev|] && r[j] == r[|prev|..][j - |prev|];
      }
    }
  }

  /** Names appended in two rounds are distinct when each round's names are and the second
      round adds none the first list already holds. */
  lemma AppendedNoDuplicates(prev: seq<string>, next: seq<string>, r: seq<string>)
    requires |prev| <= |next| <= |r| && r[..|next|] == next
    requires NoDuplicates(next[|prev|..]) && NoDuplicates(r[|next|..])
    requires forall k :: |next| <= k < |r| ==> r[k] !in next
    ensures NoDuplicates(r[|prev|..])
  {
    forall i, j | 0 <= i < j < |r| - |prev|
      ensures r[|prev|..][i] != r[|prev|..][j]
    {
      var a, b := |prev| + i, |prev| + j;
      if b < |next| {
        assert r[a] == next[|prev|..][i] && r[b] == next[|prev|..][j];
      } else if a < |next| {
        assert r[a] == next[a] && r[b] !in next;
      } else {
        assert r[a] == r[|next|..][a - |next|] && r[b] == r[|next|..][b - |next|];
      }
    }
  }

  /** `addSelectedLearn/Teach` (src/App.js:121-142): copies the list, then walks the picked
      names and pushes each one the copy does not yet hold. */
  method AddSelected(prev: seq<string>, picked: seq<string>) returns (combined: seq<string>)
    ensures combined == Merged(prev, picked)
    ensures |prev| <= |combined| && combined[..|prev|] == prev
    ensures forall x :: x in combined <==> x in prev || x in picked
    ensures forall k :: |prev| <= k < |combined| ==> combined[k] !in prev
    ensures NoDuplicates(prev) ==> NoDuplicates(combined)
  {
    combined := prev;
    var i := 0;
    while i < |picked|
      invariant 0 <= i <= |picked|
      invariant Merged(combined, picked[i..]) == Merged(prev, picked)
    {
      if picked[i] !in combined {
        combined := combined + [picked[i]];
      }
      assert picked[i..][1..] == picked[i + 1..];
      i := i + 1;
    }
  }

  /** Names already on the list are not added again. */
  lemma {:induction false} MergedPresent(prev: seq<string>, picked: seq<string>)
    requires forall x :: x in picked ==> x in prev
    ensures Merged(prev, picked) == prev
    decreases |picked|
  {
    if picked != [] {
      assert picked[0] in prev;
      MergedPresent(prev, picked[1..]);
    }
  }

  /** Merging the same picked names twice is the same as merging them once. */
  lemma MergedIdempotent(prev: seq<string>, picked: seq<string>)
    ensures Merged(Merged(prev, picked), picked) == Merged(prev, picked)
  {
    MergedPresent(Merged(prev, picked), picked);
  }

  /** `removeSkillLearn/Teach` (src/App.js:145-152): every occurrence of the name is dropped,
      everything else stays, in order. */
  function RemoveSkill(prev: seq<string>, name: string): (r: seq<string>)
    ensures name !in r
    ensures IsSubsequence(r, prev)
    ensures forall x :: x != name ==> multiset(r)[x] == multiset(prev)[x]
  {
    Filter(prev, (s: string) => s != name)
  }

  /** Removing a name that is not on the list changes nothing. */
  lemma RemoveAbsent(prev: seq<string>, name: string)
    requires name !in prev
    ensures RemoveSkill(prev, name) == prev
  {
    FilterKeepsAll(prev, (s: string) => s != name);
  }

  /** Removing a name undoes adding it: the rest of the list is as before. */
  lemma RemoveUndoesAdd(prev: seq<string>, name: string)
    ensures RemoveSkill(AddSkillFromSearch(prev, name), name) == RemoveSkill(prev, name)
  {
    if name !in prev {
      FilterAppend(prev, [name], (s: string) => s != name);
    }
  }
}
