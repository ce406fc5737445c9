/** The user store: users keyed by a system-assigned id, each with a unique
    e-mail, the hash of the login secret and the ordered list of saved
    entries embedded in the user's record. The persistence engine is an
    in-memory map; saving a user replaces that user's record in the map. */
module Store {
  import opened Http
  import Ids
  import Auth

  type UserId = Auth.UserId
  type EntryId = nat

  /** One saved credential. `createdAt` is left out. */
  datatype Entry = Entry(id: EntryId, appName: string, username: string, password: string)

  datatype User = User(email: string, hash: Auth.PasswordHash, entries: seq<Entry>)

  /** The unique index on `email`. */
  ghost predicate EmailsUnique(users: map<UserId, User>) {
    forall u, v :: u in users && v in users && u != v ==> users[u].email != users[v].email
  }

  predicate IdsUnique(entries: seq<Entry>) {
    forall i, j :: 0 <= i < j < |entries| ==> entries[i].id != entries[j].id
  }

  /** A stored user: the e-mail satisfies the schema's `required` rule (an
      empty string fails it), entry ids are distinct and all were issued. */
  ghost predicate UserOk(user: User, nextEntryId: nat) {
    && user.email != ""
    && IdsUnique(user.entries)
    && forall e :: e in user.entries ==> e.id < nextEntryId
  }

  /** JavaScript truthiness of an optional request field. */
  predicate Present(field: Option<string>) {
    field.Some? && field.value != ""
  }

  /** `passwords.filter(pwd => pwd._id.toString() !== passwordId)`. */
  function KeepOthers(entries: seq<Entry>, passwordId: string): (kept: seq<Entry>)
    ensures |kept| <= |entries|
  {
    if entries == [] then []
    else
      (if Ids.Show(entries[0].id) != passwordId then [entries[0]] else [])
      + KeepOthers(entries[1..], passwordId)
  }

  /** Exactly the entries whose id text differs from `passwordId` are kept. */
  lemma {:induction false} KeepOthersMembers(entries: seq<Entry>, passwordId: string)
    ensures forall e :: e in KeepOthers(entries, passwordId) <==> e in entries && Ids.Show(e.id) != passwordId
  {
    if entries != [] {
      KeepOthersMembers(entries[1..], passwordId);
      assert entries == [entries[0]] + entries[1..];
    }
  }

  /** Filtering keeps order: it works piecewise on a concatenation. */
  lemma {:induction false} KeepOthersAppend(a: seq<Entry>, b: seq<Entry>, passwordId: string)
    ensures KeepOthers(a + b, passwordId) == KeepOthers(a, passwordId) + KeepOthers(b, passwordId)
  {
    if a == [] {
      assert a + b == b;
    } else {
      assert (a + b)[0] == a[0] && (a + b)[1..] == a[1..] + b;
      KeepOthersAppend(a[1..], b, passwordId);
    }
  }

  /** Deleting an id no entry has leaves the list as it was. */
  lemma {:induction false} KeepOthersNoMatch(entries: seq<Entry>, passwordId: string)
    requires forall k :: 0 <= k < |entries| ==> Ids.Show(entries[k].id) != passwordId
    ensures KeepOthers(entries, passwordId) == entries
  {
    if entries != [] {
      KeepOthersNoMatch(entries[1..], passwordId);
    }
  }

  /** With distinct ids, deleting the id of entry `k` removes that entry and
      nothing else, so the list is one shorter and keeps its order. */
  lemma KeepOthersRemovesOne(entries: seq<Entry>, k: nat)
    requires IdsUnique(entries) && k < |entries|
    ensures KeepOthers(entries, Ids.Show(entries[k].id)) == entries[..k] + entries[k + 1..]
    ensures |KeepOthers(entries, Ids.Show(entries[k].id))| == |entries| - 1
  {
    var pid := Ids.Show(entries[k].id);
    var before, after := entries[..k], entries[k + 1..];
    assert entries == before + [entries[k]] + after;
    forall j | 0 <= j < |before| ensures Ids.Show(before[j].id) != pid {
      Ids.ShowInjective(before[j].id, entries[k].id);
    }
    forall j | 0 <= j < |after| ensures Ids.Show(after[j].id) != pid {
      assert after[j] == entries[k + 1 + j];
      Ids.ShowInjective(after[j].id, entries[k].id);
    }
    KeepOthersNoMatch(before, pid);
    KeepOthersNoMatch(after, pid);
    KeepOthersAppend(before + [entries[k]], after, pid);
    KeepOthersAppend(before, [entries[k]], pid);
  }

  /** Filtering keeps ids distinct. */
  lemma {:induction false} KeepOthersUnique(entries: seq<Entry>, passwordId: string)
    requires IdsUnique(entries)
    ensures IdsUnique(KeepOthers(entries, passwordId))
  {
    if entries != [] {
      var tail := entries[1..];
      KeepOthersUnique(tail, passwordId);
      KeepOthersMembers(tail, passwordId);
      var rest := KeepOthers(tail, passwordId);
      forall e | e in rest ensures e.id != entries[0].id {
        var j :| 0 <= j < |tail| && tail[j] == e;
        assert tail[j] == entries[j + 1];
      }
    }
  }

  class UserStore {
    var users: map<UserId, User>
    /** Ids handed out so far; stand in for the engine's fresh ids. */
    var nextUserId: nat
    var nextEntryId: nat

    ghost predicate Valid()
      reads this
      ensures Valid() ==> nextUserId !in users
      ensures Valid() ==> forall u :: u in users ==> users[u].email != "" && IdsUnique(users[u].entries)
    {
      && EmailsUnique(users)
      && forall u :: u in users ==> u < nextUserId && UserOk(users[u], nextEntryId)
    }

    constructor ()
      ensures Valid()
      ensures users == map[] && nextUserId == 0 && nextEntryId == 0
    {
      users := map[];
      nextUserId := 0;
      nextEntryId := 0;
    }

    /** `User.findOne({ email })`. */
    method FindByEmail(email: string) returns (found: Option<UserId>)
      ensures found.Some? ==> found.value in users && users[found.value].email == email
      ensures found.None? ==> forall u :: u in users ==> users[u].email != email
    {
      var unseen := users.Keys;
      while unseen != {}
        invariant unseen <= users.Keys
        invariant forall u :: u in users && u !in unseen ==> users[u].email != email
        decreases unseen
      {
        var u :| u in unseen;
        if users[u].email == email {
          return Some(u);
        }
        unseen := unseen - {u};
      }
      return None;
    }

    /** `POST /api/register`. The route does not look the e-mail up first:
        the save fails on the unique index, and every failure is a 500. */
    method Register(email: string, password: string) returns (r: Result<string>)
      requires Valid()
      modifies this
      ensures Valid()
      ensures r.Ok? <==> email != "" && forall u :: u in old(users) ==> old(users)[u].email != email
      ensures r.Ok? ==>
        && r.value == "User created successfully"
        && old(nextUserId) !in old(users)
        && users == old(users)[old(nextUserId) := User(email, Auth.Hash(password), [])]
        && nextUserId == old(nextUserId) + 1
        && nextEntryId == old(nextEntryId)
      ensures r.Err? ==> r.failure == Failure(500, "Error creating user") && unchanged(this)
    {
      var hashed := Auth.Hash(password);
      var existing := FindByEmail(email);
      if email == "" || existing.Some? {
        return Err(Failure(500, "Error creating user"));
      }
      var id := nextUserId;
      users := users[id := User(email, hashed, [])];
      nextUserId := nextUserId + 1;
      r := Ok("User created successfully");
    }

    /** `POST /api/login`: an unknown e-mail and a wrong secret are both
        400, with different messages; success returns the signed token of
        the user with that e-mail. */
    method Login(email: string, password: string) returns (r: Result<string>)
      requires Valid()
      ensures (forall u :: u in users ==> users[u].email != email) ==> r == Err(Failure(400, "User not found"))
      ensures forall u :: u in users && users[u].email == email ==>
        if Auth.Compare(password, users[u].hash)
        then r == Ok(Auth.Sign(u)) && Auth.Verify(r.value) == Some(u)
        else r == Err(Failure(400, "Invalid password"))
    {
      var found := FindByEmail(email);
      if found.None? {
        return Err(Failure(400, "User not found"));
      }
      var u := found.value;
      if !Auth.Compare(password, users[u].hash) {
        return Err(Failure(400, "Invalid password"));
      }
      Auth.VerifySign(Auth.Sign(u), u);
      r := Ok(Auth.Sign(u));
    }

    /** `POST /api/passwords`: the token middleware, then the 400 field
        check before any lookup, then 404 for an unknown user, then the new
        entry is pushed onto that user's list and the user is saved. The
        route also reads `category`, which the schema does not declare, so
        the saved entry does not keep it. */
    method AddEntry(authHeader: Option<string>, appName: Option<string>, username: Option<string>,
                    password: Option<string>, category: Option<string>) returns (r: Result<string>)
      requires Valid()
      modifies this
      ensures Valid()
      ensures nextUserId == old(nextUserId)
      ensures Auth.Authenticate(authHeader).Err? ==>
        r == Err(Auth.Authenticate(authHeader).failure) && unchanged(this)
      ensures Auth.Authenticate(authHeader).Ok? && !(Present(appName) && Present(username) && Present(password)) ==>
        r == Err(Failure(400, "Missing required fields")) && unchanged(this)
      ensures var a := Auth.Authenticate(authHeader);
        a.Ok? && Present(appName) && Present(username) && Present(password) && a.value !in old(users) ==>
        r == Err(Failure(404, "User not found")) && unchanged(this)
      ensures var a := Auth.Authenticate(authHeader);
        a.Ok? && Present(appName) && Present(username) && Present(password) && a.value in old(users) ==>
        var before := old(users)[a.value];
        var added := Entry(old(nextEntryId), appName.value, username.value, password.value);
        && r == Ok("Password saved successfully")
        && (forall e :: e in before.entries ==> e.id != added.id)
        && users == old(users)[a.value := before.(entries := before.entries + [added])]
        && nextEntryId == old(nextEntryId) + 1
    {
      var auth := Auth.Authenticate(authHeader);
      if auth.Err? {
        return Err(auth.failure);
      }
      if !Present(appName) || !Present(username) || !Present(password) {
        return Err(Failure(400, "Missing required fields"));
      }
      var uid := auth.value;
      if uid !in users {
        return Err(Failure(404, "User not found"));
      }
      var user := users[uid];
      var added := Entry(nextEntryId, appName.value, username.value, password.value);
      var entries := user.entries + [added];
      assert IdsUnique(entries);
      users := users[uid := user.(entries := entries)];
      nextEntryId := nextEntryId + 1;
      r := Ok("Password saved successfully");
    }

    /** `GET /api/passwords`: the caller's own entries, in stored order. An
        unknown user makes `user.passwords` throw, which is answered 500. */
    method ListEntries(authHeader: Option<string>) returns (r: Result<seq<Entry>>)
      ensures Auth.Authenticate(authHeader).Err? ==> r == Err(Auth.Authenticate(authHeader).failure)
      ensures var a := Auth.Authenticate(authHeader);
        a.Ok? && a.value !in users ==> r == Err(Failure(500, "Error fetching passwords"))
      ensures var a := Auth.Authenticate(authHeader);
        a.Ok? && a.value in users ==> r == Ok(users[a.value].entries)
    {
      var auth := Auth.Authenticate(authHeader);
      if auth.Err? {
        return Err(auth.failure);
      }
      if auth.value !in users {
        return Err(Failure(500, "Error fetching passwords"));
      }
      r := Ok(users[auth.value].entries);
    }

    /** `DELETE /api/passwords/:passwordId`: 404 for an unknown user;
        otherwise the entries whose id text differs from the path parameter
        are kept and the user is saved, which succeeds whether or not an
        entry matched. */
    method DeleteEntry(authHeader: Option<string>, passwordId: string) returns (r: Result<string>)
      requires Valid()
      modifies this
      ensures Valid()
      ensures nextUserId == old(nextUserId) && nextEntryId == old(nextEntryId)
      ensures Auth.Authenticate(authHeader).Err? ==>
        r == Err(Auth.Authenticate(authHeader).failure) && unchanged(this)
      ensures var a := Auth.Authenticate(authHeader);
        a.Ok? && a.value !in old(users) ==> r == Err(Failure(404, "User not found")) && unchanged(this)
      ensures var a := Auth.Authenticate(authHeader);
        a.Ok? && a.value in old(users) ==>
        var before := old(users)[a.value];
        && r == Ok("Password deleted successfully")
        && users == old(users)[a.value := before.(entries := KeepOthers(before.entries, passwordId))]
    {
      var auth := Auth.Authenticate(authHeader);
      if auth.Err? {
        return Err(auth.failure);
      }
      var uid := auth.value;
      if uid !in users {
        return Err(Failure(404, "User not found"));
      }
      var user := users[uid];
      KeepOthersMembers(user.entries, passwordId);
      KeepOthersUnique(user.entries, passwordId);
      users := users[uid := user.(entries := KeepOthers(user.entries, passwordId))];
      r := Ok("Password deleted successfully");
    }
  }
}

/** A client session against the store, using only the contracts above:
    registration, a refused duplicate, login, the bearer header, and an
    entry added, listed and deleted by its id text. */
module Session {
  import opened Http
  import Ids
  import Auth
  import opened Store

  method Walkthrough() {
    var store := new UserStore();
    var created := store.Register("ann@example.org", "s3cret");
    assert created.Ok? && store.users == map[0 := User("ann@example.org", Auth.Hash("s3cret"), [])];
    var again := store.Register("ann@example.org", "other");
    assert again == Err(Failure(500, "Error creating user"));

    var wrong := store.Login("ann@example.org", "guess");
    assert wrong == Err(Failure(400, "Invalid password"));
    var unknown := store.Login("bob@example.org", "s3cret");
    assert unknown == Err(Failure(400, "User not found"));
    var login := store.Login("ann@example.org", "s3cret");
    assert login == Ok(Auth.Sign(0));

    var header := Some("Bearer " + login.value);
    Auth.BearerRoundTrip(0);
    assert Auth.Authenticate(header) == Ok(0);
    var missing := store.AddEntry(header, Some("mail"), Some(""), Some("pw"), None);
    assert missing == Err(Failure(400, "Missing required fields"));
    assert store.nextEntryId == 0;
    var added := store.AddEntry(header, Some("mail"), Some("ann"), Some("pw"), Some("work"));
    assert added.Ok?;
    assert store.users[0].entries == [Entry(0, "mail", "ann", "pw")];
    var listed := store.ListEntries(header);
    assert listed == Ok([Entry(0, "mail", "ann", "pw")]);

    var noAuth := store.ListEntries(None);
    assert noAuth == Err(Unauthorized);

    KeepOthersRemovesOne(store.users[0].entries, 0);
    var deleted := store.DeleteEntry(header, Ids.Show(0));
    listed := store.ListEntries(header);
    assert listed == Ok([]);
  }
}
