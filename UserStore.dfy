/** The user operations of `UserService` over an abstract `UserRepository`.
    The repository is a map from the `Long` id to the four stored columns of
    a `User`; `existsByEmail` and `findByEmail` mean "some stored record has
    this email". Id assignment by JPA's `save` is not visible, so a fresh id
    is passed to `createUser`. */
module UserStore {
  import opened Wrappers
  import opened JavaTypes

  /** A nullable `String` column: `None` is Java's `null`. */
  type Text = Option<string>

  type Id = int64

  /** The columns of a `User` apart from its id. */
  datatype User = User(name: Text, email: Text, phone: Text, address: Text)

  /** A stored `User` as the service returns it: the id and its columns. */
  datatype Entity = Entity(id: Id, user: User)

  /** `UserNotFoundException` and `UserAlreadyExistsException`. */
  datatype ServiceError = UserNotFound(id: Id) | UserAlreadyExists(email: Text)

  /** What an operation gives its caller: a value, or the exception it throws. */
  datatype Reply<T> = Ok(value: T) | Thrown(error: ServiceError)

  /** The repository contents. */
  type Store = map<Id, User>

  /** The reply of an operation together with the repository afterwards. */
  datatype Step<T> = Step(reply: Reply<T>, after: Store)

  /** `existsByEmail(email)`, and whether `findByEmail(email)` finds a record:
      some stored record has this email. */
  predicate EmailTaken(store: Store, email: Text): (taken: bool)
    ensures taken <==> exists u :: u in store.Values && u.email == email
  {
    exists id :: id in store && store[id].email == email
  }

  /** No two stored records share an email. */
  predicate UniqueEmails(store: Store) {
    forall i, j :: i in store && j in store && store[i].email == store[j].email ==> i == j
  }

  /** `createUser`: refused when the email is taken, otherwise saved under
      the id the repository assigns. */
  function Create(store: Store, user: User, freshId: Id): (s: Step<Entity>)
    requires freshId !in store
    ensures s.reply.Thrown? <==> EmailTaken(store, user.email)
    ensures s.reply.Ok? ==> s.reply.value.id == freshId && freshId in s.after && s.after[freshId] == user
    ensures s.after.Keys <= store.Keys + {freshId}
  {
    if EmailTaken(store, user.email) then Step(Thrown(UserAlreadyExists(user.email)), store)
    else Step(Ok(Entity(freshId, user)), store[freshId := user])
  }

  /** `updateUser`: refused when the id is missing, otherwise the four
      columns are copied from the details and the id is kept. */
  function Update(store: Store, id: Id, details: User): (s: Step<Entity>)
    ensures s.reply.Thrown? <==> id !in store
    ensures s.reply.Ok? ==> s.reply.value.id == id && id in s.after && s.after[id] == details
    ensures s.after.Keys == store.Keys
  {
    if id !in store then Step(Thrown(UserNotFound(id)), store)
    else Step(Ok(Entity(id, details)), store[id := details])
  }

  /** `deleteUser`: refused when the id is missing, otherwise removed. */
  function Delete(store: Store, id: Id): (s: Step<()>)
    ensures s.reply.Thrown? <==> id !in store
    ensures id !in s.after && s.after.Keys == store.Keys - {id}
  {
    if id !in store then Step(Thrown(UserNotFound(id)), store)
    else Step(Ok(()), store - {id})
  }

  /** A taken email is refused with the store unchanged; a free one adds
      exactly the new record under the fresh id and changes nothing else. */
  lemma CreateOutcome(store: Store, user: User, freshId: Id)
    requires freshId !in store
    ensures var s := Create(store, user, freshId);
      && (EmailTaken(store, user.email) ==>
            s.reply == Thrown(UserAlreadyExists(user.email)) && s.after == store)
      && (!EmailTaken(store, user.email) ==>
            && s.reply == Ok(Entity(freshId, user))
            && s.after.Keys == store.Keys + {freshId}
            && s.after[freshId] == user
            && (forall id :: id in store ==> s.after[id] == store[id]))
  {
  }

  /** An update of a missing id throws and leaves the store unchanged; an
      update of a stored id replaces its four columns, keeps the id and the
      key set, and leaves every other record as it was. */
  lemma UpdateOutcome(store: Store, id: Id, details: User)
    ensures var s := Update(store, id, details);
      && (id !in store ==> s.reply == Thrown(UserNotFound(id)) && s.after == store)
      && (id in store ==>
            && s.reply == Ok(Entity(id, details))
            && s.after.Keys == store.Keys
            && s.after[id].name == details.name
            && s.after[id].email == details.email
            && s.after[id].phone == details.phone
            && s.after[id].address == details.address
            && (forall other :: other in store && other != id ==> s.after[other] == store[other]))
  {
  }

  /** Applying the same details twice gives the same reply and store as once. */
  lemma UpdateIdempotent(store: Store, id: Id, details: User)
    ensures Update(Update(store, id, details).after, id, details) == Update(store, id, details)
  {
  }

  /** A delete of a missing id throws and leaves the store unchanged;
      otherwise exactly that id is removed and the rest stays as it was. */
  lemma DeleteOutcome(store: Store, id: Id)
    ensures var s := Delete(store, id);
      && (id !in store ==> s.reply == Thrown(UserNotFound(id)) && s.after == store)
      && (id in store ==>
            && s.reply == Ok(())
            && s.after.Keys == store.Keys - {id}
            && (forall other :: other in s.after ==> s.after[other] == store[other]))
  {
  }

  /** Deleting a user just created restores the store it was created in. */
  lemma CreateThenDelete(store: Store, user: User, freshId: Id)
    requires freshId !in store && !EmailTaken(store, user.email)
    ensures Delete(Create(store, user, freshId).after, freshId) == Step(Ok(()), store)
  {
    assert store[freshId := user] - {freshId} == store;
  }

  /** The duplicate-email guard of `createUser` keeps emails unique. */
  lemma CreateKeepsEmailsUnique(store: Store, user: User, freshId: Id)
    requires freshId !in store && UniqueEmails(store)
    ensures UniqueEmails(Create(store, user, freshId).after)
  {
  }

  lemma DeleteKeepsEmailsUnique(store: Store, id: Id)
    requires UniqueEmails(store)
    ensures UniqueEmails(Delete(store, id).after)
  {
  }

  /** `updateUser` has no duplicate-email guard: copying another record's
      email into a stored record gives a store where two records share it. */
  lemma UpdateCanDuplicateEmail()
    ensures var a := User(None, Some("a@example.com"), None, None);
      var b := User(None, Some("b@example.com"), None, None);
      var store: Store := map[1 := a, 2 := b];
      && UniqueEmails(store)
      && Update(store, 2, a).reply.Ok?
      && !UniqueEmails(Update(store, 2, a).after)
  {
    var a := User(None, Some("a@example.com"), None, None);
    var b := User(None, Some("b@example.com"), None, None);
    var store: Store := map[1 := a, 2 := b];
    assert a.email != b.email by { assert a.email.value[0] != b.email.value[0]; }
    assert UniqueEmails(store);
    var after := Update(store, 2, a).after;
    assert after[1].email == after[2].email;
  }

  /** `UserService` holding the contents of its `UserRepository`. */
  class UserService {
    var repository: Store

    constructor (initial: Store)
      ensures repository == initial
    {
      repository := initial;
    }

    /** `getAllUsers`: every stored record, each with its id. */
    function GetAllUsers(): (r: set<Entity>)
      reads this
      ensures forall e :: e in r <==> e.id in repository && repository[e.id] == e.user
    {
      set id | id in repository :: Entity(id, repository[id])
    }

    /** `getUserById`: empty exactly when no record has this id. */
    function GetUserById(id: Id): (r: Option<Entity>)
      reads this
      ensures r.None? <==> id !in repository
      ensures r.Some? ==> r.value.id == id && r.value.user == repository[id]
    {
      if id in repository then Some(Entity(id, repository[id])) else None
    }

    /** `getUserByEmail`: empty exactly when no record has this email,
        otherwise a stored record with it. Nothing changes. */
    method GetUserByEmail(email: Text) returns (r: Option<Entity>)
      ensures r.None? <==> !EmailTaken(repository, email)
      ensures r.Some? ==> r.value.id in repository && repository[r.value.id] == r.value.user
      ensures r.Some? ==> r.value.user.email == email
    {
      if EmailTaken(repository, email) {
        var id :| id in repository && repository[id].email == email;
        r := Some(Entity(id, repository[id]));
      } else {
        r := None;
      }
    }

    /** `createUser`, saving under `freshId`, the id JPA assigns. */
    method CreateUser(user: User, freshId: Id) returns (r: Reply<Entity>)
      requires freshId !in repository
      modifies this
      ensures Step(r, repository) == Create(old(repository), user, freshId)
    {
      if EmailTaken(repository, user.email) {
        return Thrown(UserAlreadyExists(user.email));
      }
      repository := repository[freshId := user];
      r := Ok(Entity(freshId, user));
    }

    /** `updateUser`: fetch, set the four columns one by one, save. */
    method UpdateUser(id: Id, details: User) returns (r: Reply<Entity>)
      modifies this
      ensures Step(r, repository) == Update(old(repository), id, details)
    {
      var found := GetUserById(id);
      if found.None? {
        return Thrown(UserNotFound(id));
      }
      var user := found.value.user;
      user := user.(name := details.name);
      user := user.(email := details.email);
      user := user.(phone := details.phone);
      user := user.(address := details.address);
      repository := repository[id := user];
      r := Ok(Entity(id, user));
    }

    /** `deleteUser`: fetch, then delete. */
    method DeleteUser(id: Id) returns (r: Reply<()>)
      modifies this
      ensures Step(r, repository) == Delete(old(repository), id)
    {
      var found := GetUserById(id);
      if found.None? {
        return Thrown(UserNotFound(id));
      }
      repository := repository - {id};
      r := Ok(());
    }
  }
}
