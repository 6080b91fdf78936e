/**
 The career coach's list of tracked skills: an ordered list of names that the chips add to
 and the trash buttons remove from. Names compare exactly (case-sensitive, no normalisation).
 */
module SkillRegistry {

  predicate NoDuplicates(skills: seq<string>) {
    forall i, j :: 0 <= i < j < |skills| ==> skills[i] != skills[j]
  }

  /** `handleAddSkill`: append `skill` unless it is already tracked. */
  function Add(skills: seq<string>, skill: string): (r: seq<string>)
    ensures skill in r
    ensures |r| == if skill in skills then |skills| else |skills| + 1
    ensures r[..|skills|] == skills
    ensures forall s :: s in r <==> s in skills || s == skill
    ensures NoDuplicates(skills) ==> NoDuplicates(r)
  {
    if skill in skills then skills else skills + [skill]
  }

  /** `handleRemoveSkill`: drop every occurrence of `skill`, keeping the rest in order. */
  function Remove(skills: seq<string>, skill: string): (r: seq<string>)
    ensures skill !in r
    ensures multiset(r) == multiset(skills)[skill := 0]
    ensures |r| <= |skills|
  {
    if |skills| == 0 then []
    else
      assert skills == [skills[0]] + skills[1..];
      if skills[0] == skill then Remove(skills[1..], skill)
    else [skills[0]] + Remove(skills[1..], skill)
  }

  /** Removal works piecewise: removing from a concatenation is concatenating the removals,
      so the kept names stay in their original relative order. */
  lemma {:induction false} RemoveConcat(a: seq<string>, b: seq<string>, skill: string)
    ensures Remove(a + b, skill) == Remove(a, skill) + Remove(b, skill)
    decreases |a|
  {
    if |a| == 0 {
      assert a + b == b;
    } else {
      assert (a + b)[0] == a[0];
      assert (a + b)[1..] == a[1..] + b;
      RemoveConcat(a[1..], b, skill);
    }
  }

  /** A list that does not hold the name is left as it is. */
  lemma {:induction false} RemoveAbsent(skills: seq<string>, skill: string)
    requires skill !in skills
    ensures Remove(skills, skill) == skills
    decreases |skills|
  {
    if |skills| > 0 {
      RemoveAbsent(skills[1..], skill);
      assert skills == [skills[0]] + skills[1..];
    }
  }

  /** In a duplicate-free list, removal takes out exactly the one slot holding the name. */
  lemma RemoveUnique(skills: seq<string>, skill: string, i: nat)
    requires NoDuplicates(skills) && i < |skills| && skills[i] == skill
    ensures Remove(skills, skill) == skills[..i] + skills[i + 1..]
  {
    assert skills == skills[..i] + ([skill] + skills[i + 1..]);
    RemoveConcat(skills[..i], [skill] + skills[i + 1..], skill);
    assert skill !in skills[..i] by {
      forall j | 0 <= j < i ensures skills[..i][j] != skill { }
    }
    assert skill !in skills[i + 1..] by {
      forall j | i + 1 <= j < |skills| ensures skills[j] != skill { }
    }
    RemoveAbsent(skills[..i], skill);
    RemoveAbsent(skills[i + 1..], skill);
    assert ([skill] + skills[i + 1..])[1..] == skills[i + 1..];
  }

  lemma {:induction false} RemoveKeepsNoDuplicates(skills: seq<string>, skill: string)
    requires NoDuplicates(skills)
    ensures NoDuplicates(Remove(skills, skill))
    decreases |skills|
  {
    if |skills| > 0 {
      var tail := skills[1..];
      RemoveKeepsNoDuplicates(tail, skill);
      if skills[0] != skill {
        var r := Remove(tail, skill);
        assert skills[0] !in tail by {
          forall j | 0 <= j < |tail| ensures tail[j] != skills[0] {
            assert tail[j] == skills[j + 1];
          }
        }
        assert skills[0] !in r by {
          assert multiset(r)[skills[0]] == multiset(tail)[skills[0]] == 0;
        }
        var full := [skills[0]] + r;
        forall i, j | 0 <= i < j < |full| ensures full[i] != full[j] {
          if i == 0 {
            assert full[j] == r[j - 1];
          } else {
            assert full[i] == r[i - 1] && full[j] == r[j - 1];
          }
        }
      }
    }
  }

  /** Adding a name twice is adding it once. */
  lemma AddIdempotent(skills: seq<string>, skill: string)
    ensures Add(Add(skills, skill), skill) == Add(skills, skill)
  {
  }

  /** Add undoes nothing but Remove undoes Add: adding a new name and removing it again
      gives the list back. */
  lemma RemoveUndoesAdd(skills: seq<string>, skill: string)
    requires skill !in skills
    ensures Remove(Add(skills, skill), skill) == skills
  {
    RemoveConcat(skills, [skill], skill);
    RemoveAbsent(skills, skill);
    assert Remove([skill], skill) == [] by {
      assert [skill][1..] == [];
    }
  }

  /** Removing a name and adding it again moves it to the end. */
  lemma RemoveThenAddMovesToEnd(skills: seq<string>, skill: string)
    ensures Add(Remove(skills, skill), skill) == Remove(skills, skill) + [skill]
    ensures Add(Remove(skills, skill), skill)[|Remove(skills, skill)|] == skill
  {
  }

  /** Two adds of the same name leave a single entry for it. */
  lemma AddTwiceSingleEntry(skills: seq<string>, skill: string)
    requires skill !in skills
    ensures multiset(Add(Add(skills, skill), skill))[skill] == 1
  {
    assert multiset(skills)[skill] == 0;
  }
}
