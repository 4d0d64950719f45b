/**
 * The server's database layer: the connection opened once and kept, the tables
 * created with the default administrator seeded only when missing, and the school
 * code generator that keeps drawing until the schools table does not hold the code.
 *
 * The SQLite engine is reduced to the part of its state these operations read and
 * write: the users table and the codes of the schools table. The bcrypt hash of the
 * default password, the clock, the random source and the outcome of each lookup are
 * parameters.
 */
module Database {
  import opened Wrappers
  import Codes

  // ---------------------------------------------------------------------------
  // School codes
  // ---------------------------------------------------------------------------

  /** generateSchoolCode: "SCH-" + the clock's last six digits + "-" + the random chunk. */
  function SchoolCode(d: Codes.Draw): (code: string)
    ensures |code| >= 4 && code[..4] == "SCH-"
    ensures Codes.Split("SCH", code) == Some((Codes.ClockPart(d.now), Codes.RandomPart(d.random)))
  {
    Codes.MakeCode("SCH", d.now, d.random)
  }

  /** One round of checkCode: the draw that made the candidate, and whether its lookup failed. */
  datatype Probe = Probe(draw: Codes.Draw, lookupFails: bool)

  /** How generateUniqueSchoolCode ends: with a free code, with the lookup's error, or out of rounds. */
  datatype CodeOutcome = Unique(code: string) | LookupFailed | GaveUp

  /** A round that draws again: its lookup answered, and with a row. */
  predicate Taken(codes: set<string>, p: Probe) {
    !p.lookupFails && SchoolCode(p.draw) in codes
  }

  /** The first n rounds all drew again. */
  predicate AllTaken(codes: set<string>, probes: seq<Probe>, n: nat) {
    n <= |probes| && forall j :: 0 <= j < n ==> Taken(codes, probes[j])
  }

  /** Round i is the first that does not draw again, and its lookup answered with no row. */
  predicate FirstFree(codes: set<string>, probes: seq<Probe>, i: int) {
    0 <= i < |probes| && AllTaken(codes, probes, i) && !probes[i].lookupFails && SchoolCode(probes[i].draw) !in codes
  }

  /** Round i is the first that does not draw again, and its lookup failed. */
  predicate FirstFailed(codes: set<string>, probes: seq<Probe>, i: int) {
    0 <= i < |probes| && AllTaken(codes, probes, i) && probes[i].lookupFails
  }

  lemma TakenStep(codes: set<string>, probes: seq<Probe>, i: nat)
    requires AllTaken(codes, probes, i) && i < |probes| && Taken(codes, probes[i])
    ensures AllTaken(codes, probes, i + 1)
  {
  }

  // ---------------------------------------------------------------------------
  // The users table
  // ---------------------------------------------------------------------------

  datatype User = User(id: nat, username: string, passwordHash: string, role: string)

  const AdminName: string := "admin"
  const AdminRole: string := "admin"

  predicate HasUser(users: seq<User>, name: string) {
    exists i :: 0 <= i < |users| && users[i].username == name
  }

  /** username TEXT UNIQUE */
  predicate UniqueUsernames(users: seq<User>) {
    forall i, j :: 0 <= i < j < |users| ==> users[i].username != users[j].username
  }

  /** How many rows carry the username. */
  function CountNamed(users: seq<User>, name: string): nat
    decreases |users|
  {
    if users == [] then 0
    else CountNamed(users[..|users| - 1], name) + (if users[|users| - 1].username == name then 1 else 0)
  }

  /** Under the UNIQUE constraint a username is on exactly one row when it is on any. */
  lemma {:induction false} CountUnique(users: seq<User>, name: string)
    requires UniqueUsernames(users)
    ensures CountNamed(users, name) == (if HasUser(users, name) then 1 else 0)
    decreases |users|
  {
    if users != [] {
      var init, last := users[..|users| - 1], users[|users| - 1];
      assert forall i :: 0 <= i < |init| ==> init[i] == users[i];
      CountUnique(init, name);
      assert HasUser(users, name) <==> HasUser(init, name) || last.username == name by {
        if HasUser(users, name) {
          var i :| 0 <= i < |users| && users[i].username == name;
          if i < |init| {
            assert init[i].username == name;
          }
        }
      }
    }
  }

  /** INSERT INTO users: refused when the username is already there, otherwise one row more. */
  function InsertUser(users: seq<User>, u: User): (r: Option<seq<User>>)
    ensures r.None? <==> HasUser(users, u.username)
    ensures r.Some? ==> r.value == users + [u]
    ensures r.Some? && UniqueUsernames(users) ==> UniqueUsernames(r.value)
  {
    if HasUser(users, u.username) then None else Some(users + [u])
  }

  /**
   * The seed of createTables: look the administrator up and insert it when no row
   * came back. A failed lookup also reads as no row; the UNIQUE constraint then
   * refuses the insert if the administrator is there, so the lookup's failure never
   * matters and the table ends with exactly one administrator.
   */
  function SeedAdmin(users: seq<User>, id: nat, hash: string, lookupFails: bool): (r: seq<User>)
    ensures HasUser(users, AdminName) ==> r == users
    ensures !HasUser(users, AdminName) ==> r == users + [User(id, AdminName, hash, AdminRole)]
    ensures UniqueUsernames(users) ==> UniqueUsernames(r) && CountNamed(r, AdminName) == 1
  {
    var r :=
      if lookupFails || !HasUser(users, AdminName) then
        match InsertUser(users, User(id, AdminName, hash, AdminRole))
        case Some(t) => t
        case None => users
      else users;
    assert HasUser(r, AdminName) by {
      if !HasUser(users, AdminName) {
        assert r[|users|].username == AdminName;
      }
    }
    if UniqueUsernames(users) then
      CountUnique(r, AdminName);
      r
    else
      r
  }

  /** Creating the tables again, with any new hash, changes nothing. */
  lemma SeedIdempotent(users: seq<User>, id: nat, hash: string, lookupFails: bool, id': nat, hash': string, lookupFails': bool)
    ensures var once := SeedAdmin(users, id, hash, lookupFails);
      SeedAdmin(once, id', hash', lookupFails') == once
  {
    var once := SeedAdmin(users, id, hash, lookupFails);
    assert HasUser(once, AdminName) by {
      if !HasUser(users, AdminName) {
        assert once[|users|].username == AdminName;
      }
    }
  }

  // ---------------------------------------------------------------------------
  // The connection
  // ---------------------------------------------------------------------------

  /** What school.db holds when it is opened. */
  datatype Disk = Disk(users: seq<User>, nextUserId: nat, schoolCodes: set<string>)

  class Connection {
    var users: seq<User>
    /** The id AUTOINCREMENT gives the next user row. */
    var nextUserId: nat
    /** The code column of the schools table. */
    var schoolCodes: set<string>

    constructor (disk: Disk)
      ensures users == disk.users && nextUserId == disk.nextUserId && schoolCodes == disk.schoolCodes
    {
      users := disk.users;
      nextUserId := disk.nextUserId;
      schoolCodes := disk.schoolCodes;
    }

    /** createTables: the tables exist already in this model; the administrator is seeded. */
    method CreateTables(hash: string, lookupFails: bool)
      modifies this`users, this`nextUserId
      ensures users == SeedAdmin(old(users), old(nextUserId), hash, lookupFails)
      ensures nextUserId == old(nextUserId) + |users| - |old(users)|
    {
      var row := HasUser(users, AdminName);
      if lookupFails || !row {
        match InsertUser(users, User(nextUserId, AdminName, hash, AdminRole))
        case Some(t) =>
          users := t;
          nextUserId := nextUserId + 1;
        case None =>
      }
    }

    /**
     * checkCode(generateSchoolCode()), repeated: a failed lookup ends the search with
     * the error, a code the schools table holds is dropped for a fresh draw, and the
     * first code it does not hold is the answer. The rounds are given; running out of
     * them stands for the search going on.
     */
    method PickSchoolCode(probes: seq<Probe>) returns (r: CodeOutcome)
      ensures r.Unique? ==> r.code !in schoolCodes
      ensures r.Unique? ==> exists i :: FirstFree(schoolCodes, probes, i) && r.code == SchoolCode(probes[i].draw)
      ensures r.LookupFailed? ==> exists i :: FirstFailed(schoolCodes, probes, i)
      ensures r.GaveUp? <==> AllTaken(schoolCodes, probes, |probes|)
    {
      for i := 0 to |probes|
        invariant AllTaken(schoolCodes, probes, i)
      {
        var code := SchoolCode(probes[i].draw);
        if probes[i].lookupFails {
          assert FirstFailed(schoolCodes, probes, i);
          return LookupFailed;
        }
        if code !in schoolCodes {
          assert FirstFree(schoolCodes, probes, i);
          return Unique(code);
        }
        TakenStep(schoolCodes, probes, i);
      }
      return GaveUp;
    }
  }

  /** The module-level `db`: unset until first needed. */
  class Store {
    var db: Connection?

    constructor ()
      ensures db == null
    {
      db := null;
    }

    /** initDB: opens school.db and creates the tables. */
    method InitDB(disk: Disk, hash: string, lookupFails: bool)
      modifies this`db
      ensures db != null && fresh(db)
      ensures db.users == SeedAdmin(disk.users, disk.nextUserId, hash, lookupFails)
      ensures db.nextUserId == disk.nextUserId + |db.users| - |disk.users|
      ensures db.schoolCodes == disk.schoolCodes
    {
      var c := new Connection(disk);
      c.CreateTables(hash, lookupFails);
      db := c;
    }

    /** getDB: opens the database on the first call only; every call returns the one connection. */
    method GetDB(disk: Disk, hash: string, lookupFails: bool) returns (c: Connection)
      modifies this`db
      ensures c == db
      ensures old(db) != null ==> db == old(db)
      ensures old(db) == null ==>
        && fresh(db)
        && db.users == SeedAdmin(disk.users, disk.nextUserId, hash, lookupFails)
        && db.nextUserId == disk.nextUserId + |db.users| - |disk.users|
        && db.schoolCodes == disk.schoolCodes
    {
      if db == null {
        InitDB(disk, hash, lookupFails);
      }
      c := db;
    }

    /**
     * generateUniqueSchoolCode: opens the database first when it is not open, then
     * searches for a free code in the schools table.
     */
    method GenerateUniqueSchoolCode(disk: Disk, hash: string, lookupFails: bool, probes: seq<Probe>) returns (r: CodeOutcome)
      modifies this`db
      ensures db != null && (old(db) != null ==> db == old(db))
      ensures old(db) == null ==>
        && fresh(db)
        && db.users == SeedAdmin(disk.users, disk.nextUserId, hash, lookupFails)
        && db.nextUserId == disk.nextUserId + |db.users| - |disk.users|
        && db.schoolCodes == disk.schoolCodes
      ensures r.Unique? ==> r.code !in db.schoolCodes
      ensures r.Unique? ==> exists i :: FirstFree(db.schoolCodes, probes, i) && r.code == SchoolCode(probes[i].draw)
      ensures r.LookupFailed? ==> exists i :: FirstFailed(db.schoolCodes, probes, i)
      ensures r.GaveUp? <==> AllTaken(db.schoolCodes, probes, |probes|)
    {
      if db == null {
        InitDB(disk, hash, lookupFails);
      }
      r := db.PickSchoolCode(probes);
    }
  }
}
