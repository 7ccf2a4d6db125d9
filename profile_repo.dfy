/**
  The profile repository: one store holding the profile singleton under
  `profile:default` and the migration flag under `meta:migration:v1`. The
  store holds untyped values, so a record read back may be anything; a read
  of an absent key (or one that fails) is modelled as the key being absent.
*/
module ProfileRepo {
  import opened Wrappers
  import opened Types

  const ProfileKey: string := "profile:default"
  const MigrationKey: string := "meta:migration:v1"
  const DefaultUserId: string := "default"

  /** A value found in the store: a profile-shaped record, a migration-flag
      record, or anything else. */
  datatype Stored =
    | ProfileRec(profile: Profile)
    | MetaRec(done: bool, updatedAt: int)
    | OtherRec

  type Db = map<string, Stored>

  /** `defaultProfile`: the empty profile, stamped with the clock reading. */
  function DefaultProfile(now: int): Profile
  {
    Profile(DefaultUserId, [], [], now)
  }

  /** The stored profile, when the record under `profile:default` is one whose
      `userId` is `"default"`; anything else counts as no profile. */
  function StoredProfile(db: Db): Option<Profile>
  {
    if ProfileKey in db && db[ProfileKey].ProfileRec? && db[ProfileKey].profile.userId == DefaultUserId
    then Some(db[ProfileKey].profile)
    else None
  }

  /** `isMigrationDone`: the flag record's `done`, false when it is absent or
      is not a flag record. */
  function MigrationDone(db: Db): bool
  {
    MigrationKey in db && db[MigrationKey].MetaRec? && db[MigrationKey].done
  }

  // ---- the operations as transitions of the store ----

  /** What `getProfile` returns. */
  function ProfileRead(db: Db, now: int): (p: Profile)
    ensures p.userId == DefaultUserId
    ensures StoredProfile(db).Some? ==> p == StoredProfile(db).value
    ensures StoredProfile(db).None? ==> p.traits == [] && p.facts == [] && p.updatedAt == now
  {
    match StoredProfile(db)
    case Some(p) => p
    case None => DefaultProfile(now)
  }

  /** The store after `getProfile`: written only when no valid profile was there. */
  function AfterProfileRead(db: Db, now: int): Db
  {
    if StoredProfile(db).Some? then db else db[ProfileKey := ProfileRec(DefaultProfile(now))]
  }

  /** What `updateProfile` stores and returns. */
  function UpdatedProfile(traits: seq<string>, facts: seq<string>, now: int): Profile
  {
    Profile(DefaultUserId, traits, facts, now)
  }

  function AfterUpdate(db: Db, traits: seq<string>, facts: seq<string>, now: int): Db
  {
    db[ProfileKey := ProfileRec(UpdatedProfile(traits, facts, now))]
  }

  function AfterMark(db: Db, now: int): Db
  {
    db[MigrationKey := MetaRec(true, now)]
  }

  /** The part of the store the repository never writes. */
  function Foreign(db: Db): Db
  {
    db - {ProfileKey, MigrationKey}
  }

  // ---- properties ----

  /** After `getProfile` the store holds exactly the profile it returned. */
  lemma ProfileReadPersists(db: Db, now: int)
    ensures StoredProfile(AfterProfileRead(db, now)) == Some(ProfileRead(db, now))
  {
  }

  /** A second `getProfile` returns the record the first one returned (or
      created), whatever the clock says, and writes nothing. */
  lemma SecondProfileReadAgrees(db: Db, t1: int, t2: int)
    ensures ProfileRead(AfterProfileRead(db, t1), t2) == ProfileRead(db, t1)
    ensures AfterProfileRead(AfterProfileRead(db, t1), t2) == AfterProfileRead(db, t1)
  {
    ProfileReadPersists(db, t1);
  }

  /** `updateProfile` replaces traits and facts outright: what it returned is
      what the next `getProfile` returns. */
  lemma UpdateThenRead(db: Db, traits: seq<string>, facts: seq<string>, t1: int, t2: int)
    ensures ProfileRead(AfterUpdate(db, traits, facts, t1), t2) == UpdatedProfile(traits, facts, t1)
    ensures ProfileRead(AfterUpdate(db, traits, facts, t1), t2).traits == traits
    ensures ProfileRead(AfterUpdate(db, traits, facts, t1), t2).facts == facts
  {
  }

  /** The migration flag is a latch: `markMigrationDone` sets it, and no
      operation of the repository clears it. */
  lemma FlagIsLatch(db: Db, traits: seq<string>, facts: seq<string>, now: int)
    ensures MigrationDone(AfterMark(db, now))
    ensures MigrationDone(AfterProfileRead(db, now)) == MigrationDone(db)
    ensures MigrationDone(AfterUpdate(db, traits, facts, now)) == MigrationDone(db)
    ensures MigrationDone(db) ==> MigrationDone(AfterMark(db, now))
  {
  }

  /** Only the two keys of the repository are ever written. */
  lemma WritesOnlyOwnKeys(db: Db, traits: seq<string>, facts: seq<string>, now: int)
    ensures Foreign(AfterProfileRead(db, now)) == Foreign(db)
    ensures Foreign(AfterUpdate(db, traits, facts, now)) == Foreign(db)
    ensures Foreign(AfterMark(db, now)) == Foreign(db)
  {
  }

  /** The repository over its mutable store. */
  class ProfileRepository {
    var db: Db

    /** A repository opened over whatever the store already holds. */
    constructor (initial: Db)
      ensures db == initial
    {
      db := initial;
    }

    method GetProfile(now: int) returns (p: Profile)
      modifies this
      ensures p == ProfileRead(old(db), now)
      ensures db == AfterProfileRead(old(db), now)
      ensures StoredProfile(db) == Some(p)
    {
      if ProfileKey in db && db[ProfileKey].ProfileRec? && db[ProfileKey].profile.userId == DefaultUserId {
        return db[ProfileKey].profile;
      }
      p := DefaultProfile(now);
      db := db[ProfileKey := ProfileRec(p)];
    }

    method UpdateProfile(traits: seq<string>, facts: seq<string>, now: int) returns (p: Profile)
      modifies this
      ensures p == UpdatedProfile(traits, facts, now)
      ensures db == AfterUpdate(old(db), traits, facts, now)
      ensures StoredProfile(db) == Some(p)
    {
      p := Profile(DefaultUserId, traits, facts, now);
      db := db[ProfileKey := ProfileRec(p)];
    }

    method IsMigrationDone() returns (done: bool)
      ensures done == MigrationDone(db)
    {
      if MigrationKey in db {
        match db[MigrationKey]
        case MetaRec(d, _) => done := d;
        case _ => done := false;
      } else {
        done := false;
      }
    }

    method MarkMigrationDone(now: int)
      modifies this
      ensures db == AfterMark(old(db), now)
      ensures MigrationDone(db)
    {
      db := db[MigrationKey := MetaRec(true, now)];
    }
  }

  /** On a fresh store, two `getProfile` calls return the same default
      profile, created by the first. */
  method FreshProfileTwice(t1: int, t2: int) returns (first: Profile, second: Profile)
    ensures first == second == DefaultProfile(t1)
  {
    var repo := new ProfileRepository(map[]);
    first := repo.GetProfile(t1);
    second := repo.GetProfile(t2);
  }
}
