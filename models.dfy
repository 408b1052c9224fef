/** The three linked tables of the service (persons, objectives,
    requirements), the model constructors, `format` and `get_name`, and a
    store whose insert, update and delete keep the non-null and foreign-key
    constraints and carry out the declared cascades. */
module Models {
  import opened Python

  // ---------------------------------------------------------------------------
  // Rows as stored
  // ---------------------------------------------------------------------------

  datatype Person = Person(name: string, firstName: string, isBoss: bool)

  /** `person` is the foreign key into the persons table. */
  datatype Objective = Objective(description: string, person: int)

  /** `objective` is the foreign key into the objectives table. */
  datatype Requirement = Requirement(description: string, isMet: bool, objective: int)

  /** The three tables, keyed by primary key. */
  datatype Tables = Tables(
    persons: map<int, Person>,
    objectives: map<int, Objective>,
    requirements: map<int, Requirement>)

  /** Referential integrity: no objective without its person, no requirement
      without its objective. */
  ghost predicate Linked(t: Tables)
  {
    && (forall o | o in t.objectives :: t.objectives[o].person in t.persons)
    && (forall q | q in t.requirements :: t.requirements[q].objective in t.objectives)
  }

  // ---------------------------------------------------------------------------
  // Instances built by the constructors, before they reach the database: each
  // attribute holds whatever Python value the caller passed.
  // ---------------------------------------------------------------------------

  datatype PersonDraft = PersonDraft(name: Value, firstName: Value, isBoss: Value)
  datatype ObjectiveDraft = ObjectiveDraft(description: Value, person: Value)
  datatype RequirementDraft = RequirementDraft(description: Value, isMet: Value, objective: Value)

  /** `Person(name, first_name, is_boss=False)`. */
  function InitPerson(name: Value, firstName: Value, isBoss: Value := Bool(false)): PersonDraft
  {
    PersonDraft(name, firstName, isBoss)
  }

  /** `Objective(description, person)`. */
  function InitObjective(description: Value, person: Value): ObjectiveDraft
  {
    ObjectiveDraft(description, person)
  }

  /** `Requirement(description, objective)`: `is_met` is always set to False. */
  function InitRequirement(description: Value, objective: Value): RequirementDraft
  {
    RequirementDraft(description, Bool(false), objective)
  }

  // ---------------------------------------------------------------------------
  // Column constraints: what a commit accepts for each row
  // ---------------------------------------------------------------------------

  /** A `Person` instance as the database would store it, or None when a
      NOT NULL column is None or holds a value of another type. */
  function PersonRow(d: PersonDraft): (r: Option<Person>)
    ensures r.Some? <==> d.name.Str? && d.firstName.Str? && d.isBoss.Bool?
    ensures r.Some? ==> r.value.name == d.name.s && r.value.firstName == d.firstName.s
                        && r.value.isBoss == d.isBoss.b
  {
    match (d.name, d.firstName, d.isBoss)
    case (Str(name), Str(firstName), Bool(isBoss)) => Some(Person(name, firstName, isBoss))
    case _ => None
  }

  /** An `Objective` instance as stored: its description must be a string and
      its `person` must be the id of an existing person. */
  function ObjectiveRow(t: Tables, d: ObjectiveDraft): (r: Option<Objective>)
    ensures r.Some? <==> d.description.Str? && d.person.Int? && d.person.i in t.persons
    ensures r.Some? ==> r.value.description == d.description.s && r.value.person == d.person.i
  {
    match (d.description, d.person)
    case (Str(description), Int(person)) =>
      if person in t.persons then Some(Objective(description, person)) else None
    case _ => None
  }

  /** A `Requirement` instance as stored: description a string, `is_met` a
      boolean and `objective` the id of an existing objective. */
  function RequirementRow(t: Tables, d: RequirementDraft): (r: Option<Requirement>)
    ensures r.Some? <==> d.description.Str? && d.isMet.Bool? && d.objective.Int?
                         && d.objective.i in t.objectives
    ensures r.Some? ==> r.value.description == d.description.s && r.value.isMet == d.isMet.b
                        && r.value.objective == d.objective.i
  {
    match (d.description, d.isMet, d.objective)
    case (Str(description), Bool(isMet), Int(objective)) =>
      if objective in t.objectives then Some(Requirement(description, isMet, objective)) else None
    case _ => None
  }

  /** Whatever the caller passes, a freshly constructed requirement that the
      database accepts is stored as not met. */
  lemma InitRequirementNotMet(t: Tables, description: Value, objective: Value)
    ensures RequirementRow(t, InitRequirement(description, objective)).Some?
            <==> description.Str? && objective.Int? && objective.i in t.objectives
    ensures RequirementRow(t, InitRequirement(description, objective)).Some? ==>
            !RequirementRow(t, InitRequirement(description, objective)).value.isMet
  {
  }

  /** A person constructed without `is_boss` is stored as not a boss. */
  lemma InitPersonNotBoss(name: string, firstName: string)
    ensures PersonRow(InitPerson(Str(name), Str(firstName))) == Some(Person(name, firstName, false))
  {
  }

  /** Inserting a row that passed its column checks keeps the tables linked. */
  lemma RowsKeepLinks(t: Tables, id: int, po: ObjectiveDraft, pr: RequirementDraft, pp: PersonDraft)
    requires Linked(t)
    ensures ObjectiveRow(t, po).Some? ==>
            Linked(t.(objectives := t.objectives[id := ObjectiveRow(t, po).value]))
    ensures RequirementRow(t, pr).Some? ==>
            Linked(t.(requirements := t.requirements[id := RequirementRow(t, pr).value]))
    ensures PersonRow(pp).Some? ==> Linked(t.(persons := t.persons[id := PersonRow(pp).value]))
  {
  }

  // ---------------------------------------------------------------------------
  // Cascades declared on the relationships and foreign keys
  // ---------------------------------------------------------------------------

  /** Deleting a requirement removes that row only. */
  function DropRequirement(t: Tables, id: int): (r: Tables)
    ensures r.persons == t.persons && r.objectives == t.objectives
    ensures r.requirements.Keys == t.requirements.Keys - {id}
    ensures forall q | q in r.requirements :: r.requirements[q] == t.requirements[q]
  {
    t.(requirements := t.requirements - {id})
  }

  /** Deleting an objective removes it and every requirement it owns. */
  function DropObjective(t: Tables, id: int): (r: Tables)
  {
    Tables(
      t.persons,
      t.objectives - {id},
      map q | q in t.requirements && t.requirements[q].objective != id :: t.requirements[q])
  }

  /** The ids of the objectives a person owns. */
  function OwnedObjectives(t: Tables, person: int): set<int>
  {
    set o | o in t.objectives && t.objectives[o].person == person
  }

  /** The ids of the requirements an objective owns. */
  function RequirementsOf(t: Tables, objective: int): set<int>
  {
    set q | q in t.requirements && t.requirements[q].objective == objective
  }

  /** Deleting a person removes it, the objectives it owns and, through them,
      their requirements. */
  function DropPerson(t: Tables, id: int): (r: Tables)
  {
    var gone := OwnedObjectives(t, id);
    Tables(
      t.persons - {id},
      map o | o in t.objectives && o !in gone :: t.objectives[o],
      map q | q in t.requirements && t.requirements[q].objective !in gone :: t.requirements[q])
  }

  /** After an objective is deleted, none of its requirements is left, every
      other requirement is kept as it was, and the tables stay linked. */
  lemma DropObjectiveCascades(t: Tables, id: int)
    requires Linked(t)
    ensures var r := DropObjective(t, id);
      && r.persons == t.persons
      && r.objectives.Keys == t.objectives.Keys - {id}
      && (forall o | o in r.objectives :: r.objectives[o] == t.objectives[o])
      && (forall q | q in r.requirements :: r.requirements[q].objective != id)
      && (forall q | q in t.requirements ::
            q in r.requirements <==> t.requirements[q].objective != id)
      && (forall q | q in r.requirements :: r.requirements[q] == t.requirements[q])
      && Linked(r)
  {
  }

  /** After a person is deleted, none of its objectives and none of their
      requirements is left, everything else is kept, and the tables stay linked. */
  lemma DropPersonCascades(t: Tables, id: int)
    requires Linked(t)
    ensures var r := DropPerson(t, id);
      && r.persons.Keys == t.persons.Keys - {id}
      && (forall p | p in r.persons :: r.persons[p] == t.persons[p])
      && (forall o | o in t.objectives :: o in r.objectives <==> t.objectives[o].person != id)
      && (forall q | q in t.requirements ::
            q in r.requirements <==> t.objectives[t.requirements[q].objective].person != id)
      && (forall o | o in r.objectives :: r.objectives[o] == t.objectives[o])
      && (forall q | q in r.requirements :: r.requirements[q] == t.requirements[q])
      && Linked(r)
  {
    var r := DropPerson(t, id);
    var gone := OwnedObjectives(t, id);
    forall o | o in r.objectives ensures r.objectives[o].person in r.persons {
      assert o !in gone;
    }
    forall q | q in r.requirements ensures r.requirements[q].objective in r.objectives {
      var o := t.requirements[q].objective;
      assert o in t.objectives && o !in gone;
    }
  }

  /** Deleting a requirement keeps the tables linked. */
  lemma DropRequirementKeepsLinks(t: Tables, id: int)
    requires Linked(t)
    ensures Linked(DropRequirement(t, id))
  {
  }

  // ---------------------------------------------------------------------------
  // `query.order_by(<Model>.id).all()`
  // ---------------------------------------------------------------------------

  /** A set of ids has a least element. */
  lemma {:induction false} LeastExists(s: set<int>)
    requires s != {}
    ensures exists m :: m in s && forall x | x in s :: m <= x
    decreases |s|
  {
    var x := PickOne(s);
    if s != {x} {
      var rest := s - {x};
      LeastExists(rest);
      var m :| m in rest && forall y | y in rest :: m <= y;
      var least := if x < m then x else m;
      forall y | y in s ensures least <= y {
        if y != x {
          assert y in rest;
        }
      }
    } else {
      assert forall y | y in s :: x <= y;
    }
  }

  /** Some member of the set, when it has one. */
  lemma PickOne(s: set<int>) returns (x: int)
    ensures s == {} || x in s
  {
    if exists y :: y in s {
      x :| x in s;
    } else {
      x := 0;
      assert forall y :: y !in s;
      assert s == {};
    }
  }

  /** The least id of a non-empty set. */
  function Least(s: set<int>): (m: int)
    requires s != {}
    ensures m in s && forall x | x in s :: m <= x
  {
    LeastExists(s);
    var m :| m in s && forall x | x in s :: m <= x;
    m
  }

  /** The ids of `s` in ascending order: exactly the members of `s`, each
      once, strictly increasing. */
  function OrderedIds(s: set<int>): (r: seq<int>)
    ensures |r| == |s|
    ensures forall i | 0 <= i < |r| :: r[i] in s
    ensures forall i, j | 0 <= i < j < |r| :: r[i] < r[j]
    decreases |s|
  {
    if s == {} then []
    else
      var m := Least(s);
      [m] + OrderedIds(s - {m})
  }

  /** Every id of the set appears in its ordering. */
  lemma {:induction false} OrderedIdsComplete(s: set<int>, x: int)
    requires x in s
    ensures x in OrderedIds(s)
    decreases |s|
  {
    var m := Least(s);
    if x != m {
      OrderedIdsComplete(s - {m}, x);
    }
  }

  /** Every id of the set has a position in the ordered list. */
  lemma OrderedIdsCover(s: set<int>)
    ensures forall x | x in s :: exists k | 0 <= k < |OrderedIds(s)| :: OrderedIds(s)[k] == x
  {
    forall x | x in s ensures exists k | 0 <= k < |OrderedIds(s)| :: OrderedIds(s)[k] == x {
      OrderedIdsComplete(s, x);
    }
  }

  // ---------------------------------------------------------------------------
  // `format()` and `get_name`
  // ---------------------------------------------------------------------------

  datatype PersonView = PersonView(id: int, name: string, firstName: string, isBoss: bool)
  datatype ObjectiveView = ObjectiveView(id: int, description: string, person: int, completeName: string)
  datatype RequirementView = RequirementView(
    id: int, isMet: bool, description: string, objectiveId: int, objectiveDescription: string)

  /** `Objective.get_name`: the owning person's name and first name joined by ", ". */
  function GetName(owner: Person): (r: string)
    ensures r == owner.name + ", " + owner.firstName
    ensures |r| == |owner.name| + |owner.firstName| + 2
  {
    JoinPair(", ", owner.name, owner.firstName);
    Join(", ", [owner.name, owner.firstName])
  }

  /** `Person.format()`. */
  function FormatPerson(t: Tables, id: int): (v: PersonView)
    requires id in t.persons
    ensures v.id == id && v.name == t.persons[id].name && v.firstName == t.persons[id].firstName
    ensures v.isBoss == t.persons[id].isBoss
  {
    var p := t.persons[id];
    PersonView(id, p.name, p.firstName, p.isBoss)
  }

  /** `Objective.format()`: the row plus its owner's complete name. */
  function FormatObjective(t: Tables, id: int): (v: ObjectiveView)
    requires id in t.objectives && t.objectives[id].person in t.persons
    ensures v.id == id && v.description == t.objectives[id].description
    ensures v.person == t.objectives[id].person
    ensures var owner := t.persons[t.objectives[id].person];
      v.completeName == owner.name + ", " + owner.firstName
  {
    var o := t.objectives[id];
    ObjectiveView(id, o.description, o.person, GetName(t.persons[o.person]))
  }

  /** `Requirement.format()`: the row plus its owner's id and description. */
  function FormatRequirement(t: Tables, id: int): (v: RequirementView)
    requires id in t.requirements && t.requirements[id].objective in t.objectives
    ensures v.id == id && v.objectiveId == t.requirements[id].objective
    ensures v.isMet == t.requirements[id].isMet && v.description == t.requirements[id].description
    ensures v.objectiveDescription == t.objectives[t.requirements[id].objective].description
  {
    var q := t.requirements[id];
    RequirementView(id, q.isMet, q.description, q.objective, t.objectives[q.objective].description)
  }

  // ---------------------------------------------------------------------------
  // The database session: every insert, update and delete commits at once.
  // ---------------------------------------------------------------------------

  class Store {
    var persons: map<int, Person>
    var objectives: map<int, Objective>
    var requirements: map<int, Requirement>
    // The next value of each table's id sequence.
    var nextPersonId: int
    var nextObjectiveId: int
    var nextRequirementId: int

    function Rows(): Tables
      reads this
    {
      Tables(persons, objectives, requirements)
    }

    /** The next values of the three id sequences. */
    ghost function Sequences(): (int, int, int)
      reads this
    {
      (nextPersonId, nextObjectiveId, nextRequirementId)
    }

    /** The tables are linked and every id was drawn from its sequence. */
    ghost predicate Valid()
      reads this
    {
      && Linked(Rows())
      && 1 <= nextPersonId && 1 <= nextObjectiveId && 1 <= nextRequirementId
      && (forall p | p in persons :: 1 <= p < nextPersonId)
      && (forall o | o in objectives :: 1 <= o < nextObjectiveId)
      && (forall q | q in requirements :: 1 <= q < nextRequirementId)
    }

    constructor ()
      ensures Valid()
      ensures Rows() == Tables(map[], map[], map[])
    {
      persons, objectives, requirements := map[], map[], map[];
      nextPersonId, nextObjectiveId, nextRequirementId := 1, 1, 1;
    }

    /** `Person.insert()`: adds one row under a fresh id, or nothing when a
        column is rejected. */
    method InsertPerson(d: PersonDraft) returns (ok: bool, id: int)
      requires Valid()
      modifies this
      ensures Valid()
      ensures ok <==> PersonRow(d).Some?
      ensures ok ==> id !in old(persons) && persons == old(persons)[id := PersonRow(d).value]
      ensures !ok ==> unchanged(this)
      ensures ok ==> nextPersonId == old(nextPersonId) + 1
      ensures objectives == old(objectives) && requirements == old(requirements)
      ensures nextObjectiveId == old(nextObjectiveId) && nextRequirementId == old(nextRequirementId)
    {
      var row := PersonRow(d);
      ok, id := row.Some?, 0;
      if ok {
        id := nextPersonId;
        persons := persons[id := row.value];
        nextPersonId := nextPersonId + 1;
      }
    }

    /** `Objective.insert()`: adds one row under a fresh id when its columns
        are accepted and its person exists, otherwise nothing. */
    method InsertObjective(d: ObjectiveDraft) returns (ok: bool, id: int)
      requires Valid()
      modifies this
      ensures Valid()
      ensures ok <==> ObjectiveRow(old(Rows()), d).Some?
      ensures ok ==> id !in old(objectives)
                     && objectives == old(objectives)[id := ObjectiveRow(old(Rows()), d).value]
      ensures !ok ==> unchanged(this)
      ensures ok ==> nextObjectiveId == old(nextObjectiveId) + 1
      ensures persons == old(persons) && requirements == old(requirements)
      ensures nextPersonId == old(nextPersonId) && nextRequirementId == old(nextRequirementId)
    {
      var row := ObjectiveRow(Rows(), d);
      ok, id := row.Some?, 0;
      if ok {
        id := nextObjectiveId;
        objectives := objectives[id := row.value];
        nextObjectiveId := nextObjectiveId + 1;
      }
    }

    /** `Requirement.insert()`: adds one row under a fresh id when its columns
        are accepted and its objective exists, otherwise nothing. */
    method InsertRequirement(d: RequirementDraft) returns (ok: bool, id: int)
      requires Valid()
      modifies this
      ensures Valid()
      ensures ok <==> RequirementRow(old(Rows()), d).Some?
      ensures ok ==> id !in old(requirements)
                     && requirements == old(requirements)[id := RequirementRow(old(Rows()), d).value]
      ensures !ok ==> unchanged(this)
      ensures ok ==> nextRequirementId == old(nextRequirementId) + 1
      ensures persons == old(persons) && objectives == old(objectives)
      ensures nextPersonId == old(nextPersonId) && nextObjectiveId == old(nextObjectiveId)
    {
      var row := RequirementRow(Rows(), d);
      ok, id := row.Some?, 0;
      if ok {
        id := nextRequirementId;
        requirements := requirements[id := row.value];
        nextRequirementId := nextRequirementId + 1;
      }
    }

    /** `Person.update()`: commits the attributes assigned on a loaded person. */
    method UpdatePerson(id: int, d: PersonDraft) returns (ok: bool)
      requires Valid() && id in persons
      modifies this`persons
      ensures Valid()
      ensures ok <==> PersonRow(d).Some?
      ensures persons == if ok then old(persons)[id := PersonRow(d).value] else old(persons)
    {
      var row := PersonRow(d);
      ok := row.Some?;
      if ok {
        persons := persons[id := row.value];
      }
    }

    /** `Objective.update()`: commits the attributes assigned on a loaded
        objective, provided its columns and its person are still valid. */
    method UpdateObjective(id: int, d: ObjectiveDraft) returns (ok: bool)
      requires Valid() && id in objectives
      modifies this`objectives
      ensures Valid()
      ensures ok <==> ObjectiveRow(old(Rows()), d).Some?
      ensures objectives == if ok then old(objectives)[id := ObjectiveRow(old(Rows()), d).value]
                            else old(objectives)
    {
      var row := ObjectiveRow(Rows(), d);
      ok := row.Some?;
      if ok {
        objectives := objectives[id := row.value];
      }
    }

    /** `Requirement.update()`: commits the attributes assigned on a loaded
        requirement, provided its columns and its objective are still valid. */
    method UpdateRequirement(id: int, d: RequirementDraft) returns (ok: bool)
      requires Valid() && id in requirements
      modifies this`requirements
      ensures Valid()
      ensures ok <==> RequirementRow(old(Rows()), d).Some?
      ensures requirements == if ok then old(requirements)[id := RequirementRow(old(Rows()), d).value]
                              else old(requirements)
    {
      var row := RequirementRow(Rows(), d);
      ok := row.Some?;
      if ok {
        requirements := requirements[id := row.value];
      }
    }

    /** `Person.delete()`: removes the person, its objectives and their requirements. */
    method DeletePerson(id: int)
      requires Valid() && id in persons
      modifies this`persons, this`objectives, this`requirements
      ensures Valid()
      ensures Rows() == DropPerson(old(Rows()), id)
    {
      DropPersonCascades(Rows(), id);
      var r := DropPerson(Rows(), id);
      persons, objectives, requirements := r.persons, r.objectives, r.requirements;
    }

    /** `Objective.delete()`: removes the objective and its requirements. */
    method DeleteObjective(id: int)
      requires Valid() && id in objectives
      modifies this`objectives, this`requirements
      ensures Valid()
      ensures Rows() == DropObjective(old(Rows()), id)
    {
      DropObjectiveCascades(Rows(), id);
      var r := DropObjective(Rows(), id);
      objectives, requirements := r.objectives, r.requirements;
    }

    /** `Requirement.delete()`: removes that requirement only. */
    method DeleteRequirement(id: int)
      requires Valid() && id in requirements
      modifies this`requirements
      ensures Valid()
      ensures Rows() == DropRequirement(old(Rows()), id)
    {
      requirements := requirements - {id};
    }
  }
}
