# Activity registry of the Mergington High School management API

This project models the activity registry behind the school's extracurricular
activities API and proves properties about it. The registry is one shared,
in-memory dictionary from an activity name to a record. A record has a
description, a schedule, a maximum number of participants and an ordered list
of participant e-mail addresses. It supports three operations:

- **list**: return every activity together with its current roster.
- **sign up**: append an address to a named activity's roster. This is refused
  when the activity is unknown or the address is already on the roster.
- **unregister**: remove an address from a named activity's roster. This is
  refused when the activity is unknown or the address is not on the roster.

The test suite also has a reset fixture. Before and after every test it gives
each seed activity that is present in the registry a fresh copy of its seed
roster; activities it does not name are left alone.

The application module (`app`, loaded from `src`) is not part of this model.
The behaviour modelled here is the behaviour that `tests/test_api.py` pins
down.

Layout:

- `roster.dfy`, module `Roster`: rosters as `seq<Email>`. Its operations are
  generic in the element type. It holds the duplicate-freedom predicate
  `Distinct`, `IndexOf` (position of the first occurrence) and `RemoveFirst`.
  For an address on the roster, `RemoveFirst` takes out its first occurrence.
  For an absent address it is a no-op; unregister never reaches that case,
  since it answers `NotRegistered` first. Lemmas show that removal takes out
  exactly one copy, splices out exactly the first position, keeps a
  duplicate-free roster duplicate-free, and undoes an append.
- `registry.dfy`, module `Activities`:
  - The records (`Details`, `Activity`) and the answers (`Outcome`): `Ok`
    carries the address and the activity; the refusals are `ActivityNotFound`,
    `AlreadyRegistered` and `NotRegistered`.
  - `SignUpStep` and `UnregisterStep`: one operation on a value of the
    dictionary.
  - The seed catalogue, and `Restored`, the fixture's reset on a value.
  - Lemmas relating these operations.
  - `class Registry`: a mutable `acts: map<string, Activity>` field. Its
    methods `SignUp`, `Unregister` and `Reset` have `modifies this` and are
    proved to perform exactly those steps while keeping every roster
    duplicate-free.

HTTP status codes become `Outcome` constructors: 200 is `Ok`, 404 is
`ActivityNotFound`, and 400 is `AlreadyRegistered` or `NotRegistered`.

## Model

| member | source | states |
|---|---|---|
| `Roster.RemoveFirst` | tests/test_api.py:159-175 | removing an address on the roster shortens it by one; an absent address leaves the roster as it was |
| `Roster.RemoveFirstMultiset` | tests/test_api.py:159-175 | removal takes exactly one copy of the address out of the roster's multiset and nothing else |
| `Roster.IndexOf` | tests/test_api.py:159-175 | for an address on the roster, gives the position of its first occurrence: the address is there and nowhere before it |
| `Roster.RemoveFirstIsSplice` | tests/test_api.py:159-175 | removal cuts out exactly the first occurrence and keeps every other participant in its original order |
| `Roster.RemoveFirstDistinct` | tests/test_api.py:172-175 | in a duplicate-free roster the removed address is gone afterwards, and the roster stays duplicate-free |
| `Roster.AppendDistinct` | tests/test_api.py:124-132 | appending an address that is not yet on a duplicate-free roster keeps it duplicate-free |
| `Roster.RemoveAppended` | tests/test_api.py:196-221 | removing an address right after appending it gives back the earlier roster |
| `Activities.SignUpStep` | tests/test_api.py:97-132 | sign-up answers ActivityNotFound exactly when the activity is unknown, AlreadyRegistered exactly when the address is on its roster, and otherwise Ok naming the address and the activity; on Ok the address is appended at the end; afterwards the address is on the roster whenever the activity exists; the set of activities, the other activities and the informational fields are unchanged; a refusal changes nothing |
| `Activities.UnregisterStep` | tests/test_api.py:159-194 | unregister answers ActivityNotFound exactly when the activity is unknown, NotRegistered exactly when the address is not on its roster, and otherwise Ok naming the address and the activity; on Ok the roster loses exactly one copy of the address and shrinks by one, and it is the old roster with the address's first occurrence cut out, everyone else keeping their order; the set of activities and the other activities are unchanged; a refusal changes nothing |
| `Activities.SignUpKeepsDistinct` | tests/test_api.py:124-132 | every sign-up keeps every roster duplicate-free |
| `Activities.UnregisterKeepsDistinct` | tests/test_api.py:159-194 | every unregister keeps every roster duplicate-free, and afterwards the address is not on that activity's roster, whatever the answer was |
| `Activities.SignUpThenUnregister` | tests/test_api.py:196-221 | signing up a new address and then unregistering it both answer Ok, and the whole registry ends exactly as it started |
| `Activities.SignUpTwiceRefused` | tests/test_api.py:124-132 | signing the same address up twice for an existing activity is refused the second time with AlreadyRegistered |
| `Activities.UnregisterTwiceRefused` | tests/test_api.py:186-194 | in a duplicate-free registry, unregistering the same address twice from an existing activity is refused the second time with NotRegistered |
| `Activities.SignUpsDoNotInterfere` | tests/test_api.py:236-260 | two new addresses signed up for two different activities both succeed; each is on its own activity's roster and not on the other's |
| `Activities.SignUpEach` | tests/test_api.py:134-153 | signing up a list of addresses one after another gives one answer per address and keeps the set of activities |
| `Activities.SignUpEachAppends` | tests/test_api.py:134-153 | several new, different addresses signed up in turn for one activity all answer Ok, and the roster becomes the old roster followed by those addresses in order |
| `Activities.SeedRosters` | tests/test_api.py:25-35 | every seed roster holds two different addresses |
| `Activities.Seeded` | tests/test_api.py:63-91 | the start-up catalogue has exactly the nine seed activities (Soccer Team, Basketball Club, Drama Club, Art Studio, Science Olympiad, Debate Team, Chess Club, Programming Class, Gym Class), each with a participants list, and every roster is duplicate-free |
| `Activities.Restored` | tests/test_api.py:37-47 | the fixture's reset on a value: no activity is added or removed, informational fields are kept, every activity the seed names gets its seed roster, and every other activity is unchanged |
| `Activities.RestoredIdempotent` | tests/test_api.py:37-47 | resetting twice, before and after a test, is the same as resetting once |
| `Activities.RestoredDistinct` | tests/test_api.py:37-40 | resetting with duplicate-free seed rosters leaves every roster duplicate-free |
| `Activities.RestoredForgetsSignUp` | tests/test_api.py:37-47 | a reset undoes any sign-up on a seed activity, so no test sees another test's sign-ups |
| `Activities.RestoredForgetsUnregister` | tests/test_api.py:37-47 | a reset undoes any unregister on a seed activity |
| `Activities.RestoredSeeded` | tests/test_api.py:21-47 | resetting the start-up catalogue leaves it unchanged: the fixture's rosters are the original state |
| `Activities.SeededSignUpScenario` | tests/test_api.py:97-132 | on the start-up catalogue, a new address joins Soccer Team and becomes its third participant; alex is refused as already registered; an unknown activity is refused |
| `Activities.SeededUnregisterScenario` | tests/test_api.py:159-194 | on the start-up catalogue, alex leaves Soccer Team and ryan remains; a second unregister of alex and an unregister of an address never signed up are refused as not registered; an unknown activity is refused |
| `Activities.Registry.constructor` | tests/test_api.py:21-35 | the registry starts as the seed catalogue, with every roster duplicate-free |
| `Activities.Registry.ListActivities` | tests/test_api.py:63-91 | listing returns the whole current dictionary and changes nothing |
| `Activities.Registry.SignUp` | tests/test_api.py:97-153 | the in-place sign-up leaves the dictionary and answer that SignUpStep gives on the old dictionary, and keeps every roster duplicate-free |
| `Activities.Registry.Unregister` | tests/test_api.py:159-221 | the in-place unregister leaves the dictionary and answer that UnregisterStep gives on the old dictionary, keeps every roster duplicate-free, and leaves the address off that activity's roster |
| `Activities.Registry.Reset` | tests/test_api.py:37-47 | the fixture's loop gives every seed activity present in the registry its seed roster, leaves everything else alone, and keeps every roster duplicate-free |

## Left out

- HTTP transport is not modelled: the FastAPI test client, status codes, JSON bodies, the wording of messages, and the redirect of `/` to `/static/index.html` (tests/test_api.py:53-57). Status codes are represented by `Outcome` constructors.
- The `sys.path` manipulation and the module import (tests/test_api.py:9-12) are environment setup and are not modelled.
- The application module `app` (in `src`) is not part of this model. Its initial catalogue is taken to be exactly the nine seed activities with the fixture's rosters, since the fixture calls those rosters the original state. Their description, schedule and maximum are not visible, so the constructor takes them as a parameter `info`.
- `max_participants` is never enforced, and neither is the format of an address. No test checks either, so the model invents no such check.
- Concurrency and locking around each check-then-mutate step are not modelled. The model is sequential.
- Activities.SignUpStep: the clause saying that a refused sign-up leaves the registry unchanged is a modelling assumption. No test asserts it.
- Activities.UnregisterStep: the clause saying that a refused unregister leaves the registry unchanged is a modelling assumption. No test asserts it.
- Activities.Registry.Reset: the fixture walks the seed dictionary in insertion order, while the model picks the keys in any order. The keys are distinct, so the result is the same.
- Activities.Registry.Reset: `participants.copy()` keeps later appends from reaching the seed lists. Dafny sequences are values, so this aliasing concern does not arise in the model, and it is not represented separately.
- The order of the activities is not modelled. The Python dictionary keeps insertion order and listing returns the activities in that order, but the model's `map` has none. No test relies on that order.
