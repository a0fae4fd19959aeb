/**
 The relationship comparators of server/rapidly/models/event.py: SQL conditions, in three-valued
 logic, that match an event to a customer or member by internal or by external id.

 Both comparators are the same conditions over different columns, so there is one model.  What
 differs is the foreign key: a customer id always refers to a customer, a member id need not.
 */
module EventComparators {
  import opened Prelude

  datatype Truth = True | False | Unknown

  function Of(b: bool): Truth {
    if b then True else False
  }

  function And(p: Truth, q: Truth): (r: Truth)
    ensures r == True <==> p == True && q == True
    ensures r == False <==> p == False || q == False
  {
    if p == False || q == False then False
    else if p == True && q == True then True
    else Unknown
  }

  function Or(p: Truth, q: Truth): (r: Truth)
    ensures r == True <==> p == True || q == True
    ensures r == False <==> p == False && q == False
  {
    if p == True || q == True then True
    else if p == False && q == False then False
    else Unknown
  }

  function Not(p: Truth): Truth {
    match p
    case True => False
    case False => True
    case Unknown => Unknown
  }

  /** `=` between nullable columns. */
  function Equal<T(==)>(x: Option<T>, y: Option<T>): Truth {
    if x.None? || y.None? then Unknown else Of(x.value == y.value)
  }

  function IsNull<T>(x: Option<T>): Truth {
    Of(x.None?)
  }

  function IsNotNull<T>(x: Option<T>): Truth {
    Of(x.Some?)
  }

  /** A customer or member row. */
  datatype Person = Person(id: int, externalId: Option<string>, workspace: int)

  /** The columns of an event that refer to a person. */
  datatype Event = Event(personId: Option<int>, externalPersonId: Option<string>, workspace: int)

  /** `Event.customer == other`: the branch on `external_id` is taken in Python. */
  function Matches(e: Event, other: Person): Truth {
    var byId := Equal(e.personId, Some(other.id));
    if other.externalId.Some? then
      Or(byId, And(And(IsNotNull(e.externalPersonId), Equal(e.externalPersonId, other.externalId)),
                   Equal(Some(e.workspace), Some(other.workspace))))
    else byId
  }

  /** The subquery of `is_` and `is_not`: EXISTS is never unknown. */
  predicate KnownExternally(e: Event, people: set<Person>) {
    exists p :: p in people &&
                And(Equal(p.externalId, e.externalPersonId), Equal(Some(p.workspace), Some(e.workspace))) == True
  }

  /** `Event.customer.is_(None)` */
  function IsNone(e: Event, people: set<Person>): Truth {
    And(IsNull(e.personId), Or(IsNull(e.externalPersonId), Not(Of(KnownExternally(e, people)))))
  }

  /** `Event.customer.is_not(None)` */
  function IsNotNone(e: Event, people: set<Person>): Truth {
    Or(IsNotNull(e.personId), And(IsNotNull(e.externalPersonId), Of(KnownExternally(e, people))))
  }

  /** The `primaryjoin` of the relationship. */
  function Joins(e: Event, p: Person): Truth {
    Or(Equal(e.personId, Some(p.id)),
       And(Equal(e.externalPersonId, p.externalId), Equal(Some(e.workspace), Some(p.workspace))))
  }

  /** The two null tests never are unknown and always disagree, so they partition the events. */
  lemma NullTestsPartition(e: Event, people: set<Person>)
    ensures IsNone(e, people) != Unknown
    ensures IsNotNone(e, people) == Not(IsNone(e, people))
  {
  }

  /** The comparator selects what the relationship joins, although it omits a condition. */
  lemma ComparatorIsJoin(e: Event, p: Person)
    ensures Matches(e, p) == True <==> Joins(e, p) == True
  {
  }

  /** It is true when the ids agree, or both external ids are there and agree within the workspace. */
  lemma MatchesExactly(e: Event, p: Person)
    ensures Matches(e, p) == True <==>
            || e.personId == Some(p.id)
            || (e.externalPersonId.Some? && e.externalPersonId == p.externalId && e.workspace == p.workspace)
  {
  }

  predicate HasPerson(e: Event, people: set<Person>) {
    exists p :: p in people && Matches(e, p) == True
  }

  /** An id that refers to nobody: ruled out for customers by a foreign key, not for members. */
  predicate Dangling(e: Event, people: set<Person>) {
    e.personId.Some? && forall p :: p in people ==> p.id != e.personId.value
  }

  /** `is_not(None)` means that some person matches, or that the id dangles; nothing else. */
  lemma IsNotNoneExactly(e: Event, people: set<Person>)
    ensures IsNotNone(e, people) == True <==> HasPerson(e, people) || Dangling(e, people)
  {
    if HasPerson(e, people) {
      var p :| p in people && Matches(e, p) == True;
      if e.personId.None? {
        assert And(Equal(p.externalId, e.externalPersonId), Equal(Some(p.workspace), Some(e.workspace))) == True;
        assert KnownExternally(e, people);
      }
    }
    if IsNotNone(e, people) == True && !Dangling(e, people) {
      if e.personId.Some? {
        var p :| p in people && p.id == e.personId.value;
        assert Matches(e, p) == True;
      } else {
        var p :| p in people &&
                 And(Equal(p.externalId, e.externalPersonId), Equal(Some(p.workspace), Some(e.workspace))) == True;
        assert Matches(e, p) == True;
      }
    }
  }

  /** With the foreign key the null tests say exactly whether the event has a customer. */
  lemma NullTestsMeanCustomer(e: Event, customers: set<Person>)
    requires !Dangling(e, customers)
    ensures IsNotNone(e, customers) == True <==> HasPerson(e, customers)
    ensures IsNone(e, customers) == True <==> forall p :: p in customers ==> Matches(e, p) != True
  {
    IsNotNoneExactly(e, customers);
    NullTestsPartition(e, customers);
  }

  /** A member id without its member: `is_not(None)` selects the event, yet no member matches it. */
  lemma DanglingMember() returns (e: Event)
    ensures IsNotNone(e, {}) == True && !HasPerson(e, {})
  {
    e := Event(Some(1), None, 0);
  }
}
