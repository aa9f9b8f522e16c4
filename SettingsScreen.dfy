/** The category management and the auto-save interval control of
    `src/screens/SettingsScreen.js`. The screen's `newCategory` and `autoSaveInterval` state cells
    are fields; the categories live in the store and change only through its mutators. */
module SettingsScreen {
  import opened Collections
  import opened JsString
  import opened NoteStore

  // ---------------------------------------------------------------- adding a category

  /** What `handleAddCategory` does with the text field's content. */
  datatype AddOutcome = Ignored | Duplicate | Added(name: string)

  function AddDecision(categories: seq<string>, input: string): (r: AddOutcome)
    ensures r.Ignored? <==> AllWhiteSpace(input)
    ensures r.Duplicate? <==> !AllWhiteSpace(input) && Trim(input) in categories
    ensures r.Added? <==> !AllWhiteSpace(input) && Trim(input) !in categories
    ensures r.Added? ==> r.name == Trim(input) && r.name != []
  {
    TrimEmptyIffBlank(input);
    var name := Trim(input);
    if name == [] then Ignored
    else if name in categories then Duplicate
    else Added(name)
  }

  /** A name the screen adds is new, so the store's `addCategory` appends it. */
  lemma AddedNameIsAppended(categories: seq<string>, input: string)
    requires AddDecision(categories, input).Added?
    ensures CategoriesWith(categories, AddDecision(categories, input).name)
            == categories + [Trim(input)]
  {
  }

  // ---------------------------------------------------------------- deleting a category

  /** The button pressed in the confirmation alert. */
  datatype AlertChoice = Cancel | Confirm

  /** What `handleDeleteCategory` ends in. */
  datatype DeleteOutcome = RejectedDefault | Cancelled | Removed

  function DeleteDecision(category: string, choice: AlertChoice): (r: DeleteOutcome)
    ensures r.RejectedDefault? <==> category in DefaultCategories
    ensures r.Removed? <==> category !in DefaultCategories && choice.Confirm?
    ensures r.Cancelled? <==> category !in DefaultCategories && choice.Cancel?
  {
    if category in DefaultCategories then RejectedDefault
    else if choice.Cancel? then Cancelled
    else Removed
  }

  /** Through the screen, a default category can never be deleted: whatever the user picks, each
      default that was present is still present. */
  lemma {:induction false} DefaultsSurvive(categories: seq<string>, category: string, choice: AlertChoice)
    ensures var after := if DeleteDecision(category, choice).Removed?
                         then CategoriesWithout(categories, category) else categories;
            forall i :: 0 <= i < |categories| && categories[i] in DefaultCategories ==> categories[i] in after
  {
    if DeleteDecision(category, choice).Removed? {
      assert category !in DefaultCategories;
    }
  }

  // ---------------------------------------------------------------- the auto-save interval

  const InitialInterval: int := 30
  const IntervalStep: int := 5

  /** The values the interval control can show: positive multiples of the step. */
  predicate IntervalOk(i: int) {
    i >= IntervalStep && i % IntervalStep == 0
  }

  /** The "remove" button: subtracts the step only while the interval is above it. */
  function Decrement(i: int): (r: int)
    ensures IntervalOk(i) ==> IntervalOk(r)
    ensures r <= i
    ensures r == i <==> i <= IntervalStep
    ensures r == i || r == i - IntervalStep
  {
    if i > IntervalStep then i - IntervalStep else i
  }

  /** The "add" button: adds the step unconditionally. */
  function Increment(i: int): (r: int)
    ensures IntervalOk(i) ==> IntervalOk(r)
    ensures r > i
    ensures IntervalOk(i) ==> Decrement(r) == i
  {
    i + IntervalStep
  }

  datatype Press = Minus | Plus

  /** The interval after a sequence of button presses. */
  function AfterPresses(i: int, presses: seq<Press>): int
    decreases |presses|
  {
    if presses == [] then i
    else AfterPresses(if presses[0] == Minus then Decrement(i) else Increment(i), presses[1..])
  }

  /** No sequence of presses leaves the set of valid intervals. */
  lemma {:induction false} PressesKeepInterval(i: int, presses: seq<Press>)
    requires IntervalOk(i)
    ensures IntervalOk(AfterPresses(i, presses))
    decreases |presses|
  {
    if presses != [] {
      PressesKeepInterval(if presses[0] == Minus then Decrement(i) else Increment(i), presses[1..]);
    }
  }

  /** Starting from the initial 30 seconds, the control only ever shows valid intervals. */
  lemma IntervalAlwaysOk(presses: seq<Press>)
    ensures IntervalOk(AfterPresses(InitialInterval, presses))
  {
    PressesKeepInterval(InitialInterval, presses);
  }

  /** Pressing "remove" n times lowers the interval by n steps, but never below one step. */
  lemma {:induction false} MinusPresses(i: int, n: nat)
    requires IntervalOk(i)
    ensures AfterPresses(i, seq(n, _ => Minus)) == Max(IntervalStep, i - n * IntervalStep)
  {
    if n > 0 {
      var rest := seq(n - 1, _ => Minus);
      assert seq(n, _ => Minus)[1..] == rest;
      MinusPresses(Decrement(i), n - 1);
    }
  }

  function Max(a: int, b: int): int {
    if a < b then b else a
  }

  // ---------------------------------------------------------------- the screen

  class Settings {
    const store: Store
    var newCategory: string
    var autoSaveInterval: int

    ghost predicate Valid()
      reads this
    {
      IntervalOk(autoSaveInterval)
    }

    constructor (store: Store)
      ensures this.store == store && newCategory == "" && autoSaveInterval == InitialInterval
      ensures Valid()
    {
      this.store := store;
      newCategory := "";
      autoSaveInterval := InitialInterval;
    }

    method SetNewCategory(text: string)
      modifies this`newCategory
      ensures newCategory == text
    {
      newCategory := text;
    }

    /** `handleAddCategory()`: blank input is ignored; an existing name only raises an error
        alert; otherwise the trimmed name goes to `addCategory` and the field is cleared. */
    method HandleAddCategory() returns (outcome: AddOutcome)
      modifies this`newCategory, store`categories
      ensures outcome == AddDecision(old(store.categories), old(newCategory))
      ensures outcome.Added? ==> store.categories == old(store.categories) + [outcome.name] && newCategory == ""
      ensures !outcome.Added? ==> store.categories == old(store.categories) && newCategory == old(newCategory)
      ensures old(store.Valid()) ==> store.Valid()
    {
      outcome := AddDecision(store.categories, newCategory);
      var trimmed := Trim(newCategory);
      if trimmed != [] {
        if trimmed in store.categories {
          // the error alert
        } else {
          store.AddCategory(trimmed);
          newCategory := "";
        }
      }
    }

    /** `handleDeleteCategory(category)` followed by the user's `choice` in the alert. A default
        category only raises an error alert and no choice is offered. */
    method HandleDeleteCategory(category: string, choice: AlertChoice, now: int) returns (outcome: DeleteOutcome)
      modifies store`notes, store`categories
      ensures outcome == DeleteDecision(category, choice)
      ensures outcome.Removed? ==> store.categories == CategoriesWithout(old(store.categories), category)
                                   && store.notes == Reassign(old(store.notes), category, now)
      ensures !outcome.Removed? ==> store.categories == old(store.categories) && store.notes == old(store.notes)
      ensures forall i :: 0 <= i < |old(store.categories)| && old(store.categories)[i] in DefaultCategories ==>
                old(store.categories)[i] in store.categories
      ensures old(store.Valid()) ==> store.Valid()
    {
      outcome := DeleteDecision(category, choice);
      DefaultsSurvive(store.categories, category, choice);
      if category in DefaultCategories {
        return;
      }
      if choice == Confirm {
        store.RemoveCategory(category, now);
      }
    }

    method PressDecrement()
      modifies this`autoSaveInterval
      ensures autoSaveInterval == Decrement(old(autoSaveInterval))
      ensures old(Valid()) ==> Valid()
    {
      if autoSaveInterval > IntervalStep {
        autoSaveInterval := autoSaveInterval - IntervalStep;
      }
    }

    method PressIncrement()
      modifies this`autoSaveInterval
      ensures autoSaveInterval == Increment(old(autoSaveInterval))
      ensures old(Valid()) ==> Valid()
    {
      autoSaveInterval := autoSaveInterval + IntervalStep;
    }
  }
}
