/**
 * The activity registry: a shared dictionary from activity name to its
 * record. Only the participant rosters ever change: sign-up appends an
 * address, unregister removes one, and the test fixture puts the seed
 * rosters back. No operation adds or removes an activity.
 *
 * The step functions below give the meaning of one operation on a value of
 * the dictionary; the class `Registry` holds the dictionary as mutable state
 * and its methods are proved to perform exactly those steps.
 */
module Activities {
  import opened Roster

  /** The informational fields of an activity; nothing in the registry reads or enforces them. */
  datatype Details = Details(description: string, schedule: string, maxParticipants: int)

  datatype Activity = Activity(details: Details, participants: seq<Email>)

  type Catalogue = map<string, Activity>

  /** What an operation answers: success names the address and the activity; three kinds of refusal. */
  datatype Outcome =
    | Ok(email: Email, activity: string)
    | ActivityNotFound
    | AlreadyRegistered
    | NotRegistered

  /** The dictionary after an operation, with the operation's answer. */
  datatype Step = Step(acts: Catalogue, outcome: Outcome)

  /** The registry invariant: every roster is duplicate-free. */
  predicate RostersDistinct(acts: Catalogue)
  {
    forall n :: n in acts ==> Distinct(acts[n].participants)
  }

  /** Signing `email` up for activity `name`. */
  function SignUpStep(acts: Catalogue, name: string, email: Email): (r: Step)
    ensures r.outcome == ActivityNotFound <==> name !in acts
    ensures r.outcome == AlreadyRegistered <==> name in acts && email in acts[name].participants
    ensures r.outcome == Ok(email, name) <==> name in acts && email !in acts[name].participants
    ensures !r.outcome.NotRegistered?
    ensures r.acts.Keys == acts.Keys
    ensures forall n :: n in acts && n != name ==> r.acts[n] == acts[n]
    ensures name in acts ==> r.acts[name].details == acts[name].details
    ensures name in acts ==> email in r.acts[name].participants
    ensures r.outcome.Ok? ==> r.acts[name].participants == acts[name].participants + [email]
    ensures !r.outcome.Ok? ==> r.acts == acts
  {
    if name !in acts then Step(acts, ActivityNotFound)
    else if email in acts[name].participants then Step(acts, AlreadyRegistered)
    else
      var a := acts[name];
      Step(acts[name := a.(participants := a.participants + [email])], Ok(email, name))
  }

  /** Unregistering `email` from activity `name`. */
  function UnregisterStep(acts: Catalogue, name: string, email: Email): (r: Step)
    ensures r.outcome == ActivityNotFound <==> name !in acts
    ensures r.outcome == NotRegistered <==> name in acts && email !in acts[name].participants
    ensures r.outcome == Ok(email, name) <==> name in acts && email in acts[name].participants
    ensures !r.outcome.AlreadyRegistered?
    ensures r.acts.Keys == acts.Keys
    ensures forall n :: n in acts && n != name ==> r.acts[n] == acts[n]
    ensures name in acts ==> r.acts[name].details == acts[name].details
    ensures r.outcome.Ok? ==> |r.acts[name].participants| == |acts[name].participants| - 1
    ensures r.outcome.Ok? ==>
      multiset(r.acts[name].participants) == multiset(acts[name].participants) - multiset{email}
    ensures r.outcome.Ok? ==>
      var p := acts[name].participants;
      r.acts[name].participants == p[..IndexOf(p, email)] + p[IndexOf(p, email) + 1..]
    ensures !r.outcome.Ok? ==> r.acts == acts
  {
    if name !in acts then Step(acts, ActivityNotFound)
    else if email !in acts[name].participants then Step(acts, NotRegistered)
    else
      var a := acts[name];
      RemoveFirstIsSplice(a.participants, email, IndexOf(a.participants, email));
      RemoveFirstMultiset(a.participants, email);
      Step(acts[name := a.(participants := RemoveFirst(a.participants, email))], Ok(email, name))
  }

  /** Sign-up keeps the registry invariant. */
  lemma SignUpKeepsDistinct(acts: Catalogue, name: string, email: Email)
    requires RostersDistinct(acts)
    ensures RostersDistinct(SignUpStep(acts, name, email).acts)
  {
  }

  /**
   * Unregister keeps the registry invariant, and whatever its answer, the
   * address is no longer in that activity's roster afterwards.
   */
  lemma UnregisterKeepsDistinct(acts: Catalogue, name: string, email: Email)
    requires RostersDistinct(acts)
    ensures RostersDistinct(UnregisterStep(acts, name, email).acts)
    ensures name in acts ==> email !in UnregisterStep(acts, name, email).acts[name].participants
  {
    if name in acts {
      RemoveFirstDistinct(acts[name].participants, email);
    }
  }

  /** Signing up a new address and then unregistering it both succeed and restore the whole registry. */
  lemma SignUpThenUnregister(acts: Catalogue, name: string, email: Email)
    requires name in acts && email !in acts[name].participants
    ensures SignUpStep(acts, name, email).outcome == Ok(email, name)
    ensures UnregisterStep(SignUpStep(acts, name, email).acts, name, email) == Step(acts, Ok(email, name))
  {
    var mid := SignUpStep(acts, name, email).acts;
    RemoveAppended(acts[name].participants, email);
    assert UnregisterStep(mid, name, email).acts == acts;
  }

  /** A second sign-up of the same address for the same activity is refused. */
  lemma SignUpTwiceRefused(acts: Catalogue, name: string, email: Email)
    requires name in acts
    ensures SignUpStep(SignUpStep(acts, name, email).acts, name, email).outcome == AlreadyRegistered
  {
  }

  /** In a duplicate-free registry, a second unregister of the same address is refused. */
  lemma UnregisterTwiceRefused(acts: Catalogue, name: string, email: Email)
    requires RostersDistinct(acts) && name in acts
    ensures UnregisterStep(UnregisterStep(acts, name, email).acts, name, email).outcome == NotRegistered
  {
    UnregisterKeepsDistinct(acts, name, email);
  }

  /**
   * Sign-ups for two different activities do not interfere: each address is
   * in the roster it signed up for and not in the other one.
   */
  lemma SignUpsDoNotInterfere(acts: Catalogue, a: string, e1: Email, b: string, e2: Email)
    requires a in acts && b in acts && a != b
    requires e1 !in acts[a].participants && e1 !in acts[b].participants
    requires e2 !in acts[a].participants && e2 !in acts[b].participants
    requires e1 != e2
    ensures SignUpStep(acts, a, e1).outcome == Ok(e1, a)
    ensures SignUpStep(SignUpStep(acts, a, e1).acts, b, e2).outcome == Ok(e2, b)
    ensures var final := SignUpStep(SignUpStep(acts, a, e1).acts, b, e2).acts;
      && e1 in final[a].participants && e1 !in final[b].participants
      && e2 in final[b].participants && e2 !in final[a].participants
  {
  }

  /** Signing up each address of `emails` in turn for activity `name`. */
  function SignUpEach(acts: Catalogue, name: string, emails: seq<Email>): (r: (Catalogue, seq<Outcome>))
    ensures |r.1| == |emails|
    ensures r.0.Keys == acts.Keys
    decreases |emails|
  {
    if emails == [] then (acts, [])
    else
      var first := SignUpStep(acts, name, emails[0]);
      var rest := SignUpEach(first.acts, name, emails[1..]);
      (rest.0, [first.outcome] + rest.1)
  }

  /**
   * Several new, different addresses signed up one after another all succeed
   * and are appended in order.
   */
  lemma {:induction false} SignUpEachAppends(acts: Catalogue, name: string, emails: seq<Email>)
    requires name in acts
    requires Distinct(emails)
    requires forall e :: e in emails ==> e !in acts[name].participants
    ensures name in SignUpEach(acts, name, emails).0
    ensures SignUpEach(acts, name, emails).0[name].participants == acts[name].participants + emails
    ensures forall i :: 0 <= i < |emails| ==> SignUpEach(acts, name, emails).1[i] == Ok(emails[i], name)
  {
    if emails != [] {
      var first := SignUpStep(acts, name, emails[0]);
      var tail := emails[1..];
      assert Distinct(tail) by {
        forall i, j | 0 <= i < j < |tail| ensures tail[i] != tail[j] {
          assert tail[i] == emails[i + 1] && tail[j] == emails[j + 1];
        }
      }
      forall e | e in tail ensures e !in first.acts[name].participants {
        var k :| 0 <= k < |tail| && tail[k] == e;
        assert emails[k + 1] == e && emails[0] != e;
      }
      SignUpEachAppends(first.acts, name, tail);
      assert acts[name].participants + [emails[0]] + tail == acts[name].participants + emails;
      var rest := SignUpEach(first.acts, name, tail);
      forall i | 0 <= i < |emails| ensures SignUpEach(acts, name, emails).1[i] == Ok(emails[i], name) {
        if i > 0 {
          assert SignUpEach(acts, name, emails).1[i] == rest.1[i - 1];
        }
      }
    }
  }

  /** The seed rosters the fixture restores before and after every test. */
  function SeedRosters(): (m: map<string, seq<Email>>)
    ensures forall n :: n in m ==> |m[n]| == 2 && Distinct(m[n])
  {
    map[
      "Soccer Team" := ["alex@mergington.edu", "ryan@mergington.edu"],
      "Basketball Club" := ["sarah@mergington.edu", "james@mergington.edu"],
      "Drama Club" := ["emily@mergington.edu", "lucas@mergington.edu"],
      "Art Studio" := ["lily@mergington.edu", "noah@mergington.edu"],
      "Science Olympiad" := ["ava@mergington.edu", "ethan@mergington.edu"],
      "Debate Team" := ["isabella@mergington.edu", "mason@mergington.edu"],
      "Chess Club" := ["michael@mergington.edu", "daniel@mergington.edu"],
      "Programming Class" := ["emma@mergington.edu", "sophia@mergington.edu"],
      "Gym Class" := ["john@mergington.edu", "olivia@mergington.edu"]
    ]
  }

  /**
   * The catalogue at start-up: the nine seed activities, each with its seed
   * roster. `info` supplies the informational fields, which this model does
   * not see.
   */
  function Seeded(info: string -> Details): (m: Catalogue)
    ensures m.Keys == SeedRosters().Keys
    ensures && "Soccer Team" in m && "Basketball Club" in m && "Drama Club" in m
            && "Art Studio" in m && "Science Olympiad" in m && "Debate Team" in m
            && "Chess Club" in m && "Programming Class" in m && "Gym Class" in m
    ensures RostersDistinct(m)
  {
    map n | n in SeedRosters() :: Activity(info(n), SeedRosters()[n])
  }

  /**
   * The fixture's reset: every activity named in `seed` gets a copy of its
   * seed roster; activities the seed does not name and all informational
   * fields are left alone, and no activity is added.
   */
  function Restored(acts: Catalogue, seed: map<string, seq<Email>>): (r: Catalogue)
    ensures r.Keys == acts.Keys
    ensures forall n :: n in acts ==> r[n].details == acts[n].details
    ensures forall n :: n in acts && n in seed ==> r[n].participants == seed[n]
    ensures forall n :: n in acts && n !in seed ==> r[n] == acts[n]
  {
    map n | n in acts :: if n in seed then acts[n].(participants := seed[n]) else acts[n]
  }

  /** Resetting twice is the same as resetting once (the fixture resets before and after each test). */
  lemma RestoredIdempotent(acts: Catalogue, seed: map<string, seq<Email>>)
    ensures Restored(Restored(acts, seed), seed) == Restored(acts, seed)
  {
  }

  /** After a reset with duplicate-free seed rosters the registry invariant holds, whatever came before. */
  lemma RestoredDistinct(acts: Catalogue, seed: map<string, seq<Email>>)
    requires RostersDistinct(acts)
    requires forall n :: n in seed ==> Distinct(seed[n])
    ensures RostersDistinct(Restored(acts, seed))
  {
  }

  /** A reset undoes any sign-up on a seeded activity, so tests do not see each other's sign-ups. */
  lemma RestoredForgetsSignUp(acts: Catalogue, name: string, email: Email)
    requires name in SeedRosters()
    ensures Restored(SignUpStep(acts, name, email).acts, SeedRosters()) == Restored(acts, SeedRosters())
  {
  }

  /** A reset undoes any unregister on a seeded activity. */
  lemma RestoredForgetsUnregister(acts: Catalogue, name: string, email: Email)
    requires name in SeedRosters()
    ensures Restored(UnregisterStep(acts, name, email).acts, SeedRosters()) == Restored(acts, SeedRosters())
  {
  }

  /** Resetting the start-up catalogue changes nothing. */
  lemma RestoredSeeded(info: string -> Details)
    ensures Restored(Seeded(info), SeedRosters()) == Seeded(info)
  {
  }

  /**
   * Sign-up on the start-up catalogue: a new address joins Soccer Team and is
   * appended, a member is refused, an unknown activity is refused.
   */
  lemma SeededSignUpScenario(info: string -> Details)
    ensures var s1 := SignUpStep(Seeded(info), "Soccer Team", "newstudent@mergington.edu");
      && s1.outcome == Ok("newstudent@mergington.edu", "Soccer Team")
      && s1.acts["Soccer Team"].participants
         == ["alex@mergington.edu", "ryan@mergington.edu", "newstudent@mergington.edu"]
    ensures SignUpStep(Seeded(info), "Soccer Team", "alex@mergington.edu").outcome == AlreadyRegistered
    ensures SignUpStep(Seeded(info), "Nonexistent Activity", "student@mergington.edu").outcome == ActivityNotFound
  {
    var s0 := Seeded(info);
    assert "Nonexistent Activity" !in s0;
    assert s0["Soccer Team"].participants == ["alex@mergington.edu", "ryan@mergington.edu"];
    assert "newstudent@mergington.edu" !in s0["Soccer Team"].participants;
  }

  /**
   * Unregister on the start-up catalogue: a member leaves Soccer Team and the
   * other member stays, leaving twice is refused, a stranger is refused, an
   * unknown activity is refused.
   */
  lemma SeededUnregisterScenario(info: string -> Details)
    ensures var s1 := UnregisterStep(Seeded(info), "Soccer Team", "alex@mergington.edu");
      && s1.outcome == Ok("alex@mergington.edu", "Soccer Team")
      && s1.acts["Soccer Team"].participants == ["ryan@mergington.edu"]
      && UnregisterStep(s1.acts, "Soccer Team", "alex@mergington.edu").outcome == NotRegistered
    ensures UnregisterStep(Seeded(info), "Soccer Team", "notsignedup@mergington.edu").outcome == NotRegistered
    ensures UnregisterStep(Seeded(info), "Nonexistent Activity", "student@mergington.edu").outcome == ActivityNotFound
  {
    var s0 := Seeded(info);
    var alex, ryan := "alex@mergington.edu", "ryan@mergington.edu";
    assert "Nonexistent Activity" !in s0;
    assert s0["Soccer Team"].participants == [alex, ryan];
    assert "notsignedup@mergington.edu" !in [alex, ryan];
    assert RemoveFirst([alex, ryan], alex) == [ryan];
    assert alex !in [ryan];
  }

  /** The shared, mutable registry. */
  class Registry {
    var acts: Catalogue

    ghost predicate Valid()
      reads this
    {
      RostersDistinct(acts)
    }

    /** The registry as the application starts it. */
    constructor (info: string -> Details)
      ensures Valid()
      ensures acts == Seeded(info)
    {
      acts := Seeded(info);
    }

    /** Every activity with its current roster; nothing changes. */
    method ListActivities() returns (all: Catalogue)
      ensures all == acts
    {
      all := acts;
    }

    /** Sign `email` up for activity `name`: refuse an unknown activity or a duplicate, otherwise append. */
    method SignUp(name: string, email: Email) returns (o: Outcome)
      requires Valid()
      modifies this
      ensures Valid()
      ensures Step(acts, o) == SignUpStep(old(acts), name, email)
    {
      if name !in acts {
        return ActivityNotFound;
      }
      var a := acts[name];
      if email in a.participants {
        return AlreadyRegistered;
      }
      SignUpKeepsDistinct(acts, name, email);
      acts := acts[name := a.(participants := a.participants + [email])];
      o := Ok(email, name);
    }

    /** Unregister `email` from activity `name`: refuse an unknown activity or an absent address, otherwise remove it. */
    method Unregister(name: string, email: Email) returns (o: Outcome)
      requires Valid()
      modifies this
      ensures Valid()
      ensures Step(acts, o) == UnregisterStep(old(acts), name, email)
      ensures name in acts ==> email !in acts[name].participants
    {
      if name !in acts {
        return ActivityNotFound;
      }
      var a := acts[name];
      if email !in a.participants {
        return NotRegistered;
      }
      UnregisterKeepsDistinct(acts, name, email);
      acts := acts[name := a.(participants := RemoveFirst(a.participants, email))];
      o := Ok(email, name);
    }

    /**
     * The fixture's reset: for each seed activity that is in the registry,
     * replace its roster with a fresh copy of the seed roster.
     */
    method Reset()
      requires Valid()
      modifies this
      ensures Valid()
      ensures acts == Restored(old(acts), SeedRosters())
    {
      var seed := SeedRosters();
      var todo := seed.Keys;
      while todo != {}
        invariant todo <= seed.Keys
        invariant acts.Keys == old(acts).Keys
        invariant forall n :: n in acts ==>
          acts[n] == if n in seed && n !in todo then old(acts)[n].(participants := seed[n]) else old(acts)[n]
        decreases todo
      {
        var n :| n in todo;
        if n in acts {
          acts := acts[n := acts[n].(participants := seed[n])];
        }
        todo := todo - {n};
      }
      RestoredDistinct(old(acts), seed);
    }
  }
}
