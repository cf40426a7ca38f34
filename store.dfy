/** The persistent state the handlers share: the vault collection keyed by id,
    the user collection keyed by normalised email, and the set of file paths
    present on disk. The two Mongo primitives and `fs.unlink` that several
    handlers call are methods here. */
module Store {
  import opened Js
  import opened VaultModel

  /** A user document as the auth routes read and write it
      (backend/models/User.js is not part of this model). */
  datatype User = User(id: string, name: string, email: string, passwordHash: string)

  /** No two records share an id, and every record is well formed. */
  predicate TableValid(m: map<string, Vault>) {
    forall k :: k in m ==> m[k].id == k && WellFormed(m[k])
  }

  lemma InsertKeepsTable(m: map<string, Vault>, v: Vault)
    requires TableValid(m) && WellFormed(v)
    ensures TableValid(m[v.id := v])
  {
  }

  predicate UsersValid(m: map<string, User>) {
    forall e :: e in m ==> m[e].email == e
  }

  lemma RemoveKeepsTable(m: map<string, Vault>, ids: set<string>)
    requires TableValid(m)
    ensures TableValid(m - ids)
  {
  }

  class Db {
    var vaults: map<string, Vault>
    var blobs: set<string>
    var users: map<string, User>

    ghost predicate Valid()
      reads this
    {
      TableValid(vaults) && UsersValid(users)
    }

    constructor (files: set<string>)
      ensures Valid()
      ensures vaults == map[] && users == map[] && blobs == files
    {
      vaults, blobs, users := map[], files, map[];
    }

    /** `if (item.filePath) try { await fs.unlink(item.filePath) } catch {}`:
        an absent file is not an error. */
    method RemoveFile(v: Vault)
      modifies this
      ensures blobs == old(blobs) - FileSet(v)
      ensures vaults == old(vaults) && users == old(users)
    {
      if HasFile(v) {
        blobs := blobs - {v.filePath.value};
      }
    }

    /** Multer's disk storage writes an accepted file under `path`. */
    method StoreFile(path: string)
      modifies this
      ensures blobs == old(blobs) + {path}
      ensures vaults == old(vaults) && users == old(users)
    {
      blobs := blobs + {path};
    }

    /** `Vault.create(doc)` under a fresh id. */
    method Insert(v: Vault)
      requires Valid() && WellFormed(v) && v.id !in vaults
      modifies this
      ensures Valid()
      ensures vaults == old(vaults)[v.id := v]
      ensures blobs == old(blobs) && users == old(users)
    {
      InsertKeepsTable(vaults, v);
      vaults := vaults[v.id := v];
    }

    /** `Vault.deleteOne({ id })`. */
    method DeleteOne(id: string)
      requires Valid()
      modifies this
      ensures Valid()
      ensures vaults == old(vaults) - {id}
      ensures blobs == old(blobs) && users == old(users)
    {
      vaults := vaults - {id};
    }

    /** `Vault.deleteMany(filter)`, the filter given as the set of matching ids. */
    method DeleteMany(ids: set<string>)
      requires Valid()
      modifies this
      ensures Valid()
      ensures vaults == old(vaults) - ids
      ensures blobs == old(blobs) && users == old(users)
    {
      RemoveKeepsTable(vaults, ids);
      vaults := vaults - ids;
    }
  }
}
