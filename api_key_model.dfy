/**
 * The `api_keys` table: one credential pair per registered domain. `secret`,
 * `public` and `domain` are NOT NULL and each is declared `unique=True`.
 * The field encryption of `secret` and `public` is transparent here: the
 * model holds the plaintext values the application reads and writes.
 */
module ApiKeyModel {
  import opened Wrappers
  import Table

  /** A stored row; the id is the INTEGER PRIMARY KEY. */
  datatype ApiKey = ApiKey(id: int, secret: string, public: string, domain: string)

  /** The request body of key creation: `secret` and `public` are optional, `domain` required. */
  datatype ApiKeyCreate = ApiKeyCreate(secret: Option<string>, public: Option<string>, domain: string)

  function KeyId(k: ApiKey): int { k.id }
  function SecretOf(k: ApiKey): string { k.secret }
  function PublicOf(k: ApiKey): string { k.public }
  function DomainOf(k: ApiKey): string { k.domain }

  /** The table invariant: primary keys unique and in order, and the three unique columns. */
  ghost predicate TableValid(keys: seq<ApiKey>): (b: bool)
    ensures b ==> Table.Distinct(keys, KeyId)
  {
    && Table.IdsAscending(keys, KeyId)
    && Table.Distinct(keys, SecretOf)
    && Table.Distinct(keys, PublicOf)
    && Table.Distinct(keys, DomainOf)
  }

  /**
   * Writing `row` would break a unique constraint: some other row (one with
   * another primary key) already has its secret, its public key or its domain.
   */
  predicate Collides(keys: seq<ApiKey>, row: ApiKey): (b: bool)
    ensures b ==> !TableValid(keys + [row])
  {
    var c :=
      exists i :: 0 <= i < |keys| && keys[i].id != row.id &&
        (keys[i].secret == row.secret || keys[i].public == row.public || keys[i].domain == row.domain);
    assert c ==> !TableValid(keys + [row]) by {
      if c {
        var i :| 0 <= i < |keys| && keys[i].id != row.id &&
          (keys[i].secret == row.secret || keys[i].public == row.public || keys[i].domain == row.domain);
        var r := keys + [row];
        assert r[i] == keys[i] && r[|keys|] == row;
      }
    }
    c
  }

  /** Appending a row that collides with nothing, under a fresh key, keeps the table valid. */
  lemma AppendKeepsValid(keys: seq<ApiKey>, row: ApiKey)
    requires TableValid(keys)
    requires row.id == Table.NextId(keys, KeyId)
    requires !Collides(keys, row)
    ensures TableValid(keys + [row])
  {
    Table.AppendNextId(keys, KeyId, row);
    var r := keys + [row];
    forall i, j | 0 <= i < j < |r|
      ensures r[i].secret != r[j].secret && r[i].public != r[j].public && r[i].domain != r[j].domain
    {
      assert r[i] == keys[i];
      if j < |keys| {
        assert r[j] == keys[j];
      } else {
        assert keys[i].id != row.id;
      }
    }
  }

  /** Overwriting the row at position `i` with a row of the same key that collides with nothing keeps the table valid. */
  lemma ReplaceKeepsValid(keys: seq<ApiKey>, i: nat, row: ApiKey)
    requires TableValid(keys)
    requires i < |keys| && keys[i].id == row.id
    requires !Collides(keys, row)
    ensures TableValid(keys[i := row])
  {
    var r := keys[i := row];
    forall a, b | 0 <= a < b < |r|
      ensures r[a].id < r[b].id
      ensures r[a].secret != r[b].secret && r[a].public != r[b].public && r[a].domain != r[b].domain
    {
      assert KeyId(keys[a]) < KeyId(keys[b]);
      if a == i {
        assert keys[b].id != row.id;
      } else if b == i {
        assert keys[a].id != row.id;
      }
    }
  }

  /** Inserting, in key order, a row under an absent key that collides with nothing keeps the table valid. */
  lemma InsertKeepsValid(keys: seq<ApiKey>, row: ApiKey)
    requires TableValid(keys)
    requires !Table.HasId(keys, KeyId, row.id)
    requires !Collides(keys, row)
    ensures TableValid(Table.InsertById(keys, KeyId, row))
  {
    Table.InsertByIdAscending(keys, KeyId, row);
    Table.InsertByIdSplits(keys, KeyId, row);
    var p :| 0 <= p <= |keys| && Table.InsertById(keys, KeyId, row) == keys[..p] + [row] + keys[p..];
    forall i | 0 <= i < |keys|
      ensures keys[i].secret != row.secret && keys[i].public != row.public && keys[i].domain != row.domain
    {
      assert keys[i].id != row.id;
    }
    Table.DistinctInsert(keys, SecretOf, p, row);
    Table.DistinctInsert(keys, PublicOf, p, row);
    Table.DistinctInsert(keys, DomainOf, p, row);
  }

  /** Deleting one row keeps the table valid. */
  lemma RemoveKeepsValid(keys: seq<ApiKey>, i: nat)
    requires TableValid(keys)
    requires i < |keys|
    ensures TableValid(keys[..i] + keys[i + 1..])
  {
    Table.RemoveAtAscending(keys, KeyId, i);
    var r := keys[..i] + keys[i + 1..];
    forall a, b | 0 <= a < b < |r|
      ensures r[a].secret != r[b].secret && r[a].public != r[b].public && r[a].domain != r[b].domain
    {
      var a' := if a < i then a else a + 1;
      var b' := if b < i then b else b + 1;
      assert r[a] == keys[a'] && r[b] == keys[b'];
    }
  }
}
