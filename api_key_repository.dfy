/**
 * `ApiKeyRepo`: the queries over the `api_keys` table, its three writes
 * (insert, delete, merge) with the store's constraint checks at commit,
 * and the two key generators, whose randomness is supplied by the caller.
 */
module ApiKeyRepository {
  import opened Wrappers
  import opened ApiKeyModel
  import Table
  import Store
  import Base64

  /** `fetch_api_key_by_id`: the key row with that id, or None. */
  function FetchApiKeyById(keys: seq<ApiKey>, id: int): (r: Option<ApiKey>)
    ensures r.None? <==> forall i :: 0 <= i < |keys| ==> keys[i].id != id
    ensures r.Some? ==> r.value in keys && r.value.id == id
  {
    Table.First(keys, (k: ApiKey) => k.id == id)
  }

  /** `fetch_by_secret`: the key row with that secret, or None. */
  function FetchBySecret(keys: seq<ApiKey>, secret: string): (r: Option<ApiKey>)
    ensures r.None? <==> forall i :: 0 <= i < |keys| ==> keys[i].secret != secret
    ensures r.Some? ==> r.value in keys && r.value.secret == secret
  {
    Table.First(keys, (k: ApiKey) => k.secret == secret)
  }

  /** `fetch_by_public`: the key row with that public key, or None. */
  function FetchByPublic(keys: seq<ApiKey>, public: string): (r: Option<ApiKey>)
    ensures r.None? <==> forall i :: 0 <= i < |keys| ==> keys[i].public != public
    ensures r.Some? ==> r.value in keys && r.value.public == public
  {
    Table.First(keys, (k: ApiKey) => k.public == public)
  }

  /** `fetch_by_domain`: the key row registered for that domain, or None. */
  function FetchByDomain(keys: seq<ApiKey>, domain: string): (r: Option<ApiKey>)
    ensures r.None? <==> forall i :: 0 <= i < |keys| ==> keys[i].domain != domain
    ensures r.Some? ==> r.value in keys && r.value.domain == domain
  {
    Table.First(keys, (k: ApiKey) => k.domain == domain)
  }

  /**
   * `fetch_by_public_domain`. As with the movie lookup, Python's `and` hands
   * the ORM only the first condition: the domain is never compared.
   */
  function FetchByPublicDomain(keys: seq<ApiKey>, public: string, domain: string): (r: Option<ApiKey>)
    ensures r.None? <==> forall i :: 0 <= i < |keys| ==> keys[i].public != public
    ensures r.Some? ==> r.value in keys && r.value.public == public
  {
    var byPublic := Table.Equals((k: ApiKey) => k.public == public);
    var byDomain := Table.Equals((k: ApiKey) => k.domain == domain);
    Table.First(keys, Table.PyAnd(byPublic, byDomain).holds)
  }

  /** The public-and-domain lookup is the public-key lookup, whatever the domain. */
  lemma PublicDomainIsPublic(keys: seq<ApiKey>, public: string, domain: string)
    ensures FetchByPublicDomain(keys, public, domain) == FetchByPublic(keys, public)
  {
    Table.FirstPointwise(keys,
      Table.PyAnd(Table.Equals((k: ApiKey) => k.public == public), Table.Equals((k: ApiKey) => k.domain == domain)).holds,
      (k: ApiKey) => k.public == public);
  }

  /** A key registered for one domain is returned when asked for with another domain. */
  lemma DomainIgnored(k: ApiKey, domain: string)
    requires k.domain != domain
    ensures FetchByPublicDomain([k], k.public, domain) == Some(k)
  {
    PublicDomainIsPublic([k], k.public, domain);
  }

  /**
   * `create`: the row is built from the request and inserted under the next
   * key. The commit fails (IntegrityError) when `secret` or `public` is
   * None (NOT NULL), or when the secret, the public key or the domain is
   * already stored (UNIQUE); the table is then unchanged.
   */
  method Create(db: Store.Db, apiKey: ApiKeyCreate) returns (r: Option<ApiKey>)
    requires db.Valid()
    modifies db`apiKeys
    ensures db.Valid()
    ensures r.Some? <==>
      && apiKey.secret.Some? && apiKey.public.Some?
      && FetchBySecret(old(db.apiKeys), apiKey.secret.value).None?
      && FetchByPublic(old(db.apiKeys), apiKey.public.value).None?
      && FetchByDomain(old(db.apiKeys), apiKey.domain).None?
    ensures r.Some? ==>
      && r.value.secret == apiKey.secret.value && r.value.public == apiKey.public.value
      && r.value.domain == apiKey.domain
      && (forall i :: 0 <= i < |old(db.apiKeys)| ==> old(db.apiKeys)[i].id < r.value.id)
      && db.apiKeys == old(db.apiKeys) + [r.value]
    ensures r.None? ==> db.apiKeys == old(db.apiKeys)
  {
    if apiKey.secret.None? || apiKey.public.None? {
      return None;
    }
    var row := ApiKey(Table.NextId(db.apiKeys, KeyId), apiKey.secret.value, apiKey.public.value, apiKey.domain);
    if || FetchBySecret(db.apiKeys, row.secret).Some?
       || FetchByPublic(db.apiKeys, row.public).Some?
       || FetchByDomain(db.apiKeys, row.domain).Some?
    {
      return None;
    }
    AppendKeepsValid(db.apiKeys, row);
    db.apiKeys := db.apiKeys + [row];
    r := Some(row);
  }

  predicate IsDigit(c: char)
  {
    '0' <= c <= '9'
  }

  function DigitsValue(s: string): nat
    requires forall i :: 0 <= i < |s| ==> IsDigit(s[i])
    decreases |s|
  {
    if s == [] then 0
    else
      assert IsDigit(s[|s| - 1]);
      DigitsValue(s[..|s| - 1]) * 10 + (s[|s| - 1] as int - '0' as int)
  }

  /**
   * The integer a text stands for when it is compared with an INTEGER
   * PRIMARY KEY, by a narrowed form of SQLite's numeric affinity: a run of
   * decimal digits within the 64-bit range compares as that number, and a
   * larger numeral becomes a REAL above every integer key. Signed, spaced
   * and real-number texts, which SQLite also converts, are taken to equal
   * no integer.
   */
  function AsInteger(s: string): (r: Option<int>)
    ensures r.Some? ==> 0 <= r.value <= Table.MaxInteger
    ensures r.Some? ==> s != [] && forall i :: 0 <= i < |s| ==> IsDigit(s[i])
  {
    if s != [] && forall i :: 0 <= i < |s| ==> IsDigit(s[i]) then
      var n := DigitsValue(s);
      if n <= Table.MaxInteger then Some(n) else None
    else None
  }

  /** Python's `str(n)` for a non-negative int: its decimal numeral. */
  function Numeral(n: nat): (s: string)
    ensures s != [] && forall i :: 0 <= i < |s| ==> IsDigit(s[i])
  {
    var last := ('0' as int + n % 10) as char;
    if n < 10 then [last] else Numeral(n / 10) + [last]
  }

  lemma {:induction false} NumeralValue(n: nat)
    ensures DigitsValue(Numeral(n)) == n
  {
    var s := Numeral(n);
    assert s[..|s| - 1] == if n < 10 then [] else Numeral(n / 10);
    if n >= 10 {
      NumeralValue(n / 10);
    }
  }

  /** A domain spelled as the decimal numeral of an id selects exactly that id. */
  lemma NumeralSelectsId(n: nat)
    requires n <= Table.MaxInteger
    ensures AsInteger(Numeral(n)) == Some(n)
  {
    NumeralValue(n);
  }

  /**
   * `delete`: `filter_by(id=value).first()`, then delete it. With no row
   * found the session is asked to delete None, which raises: `ok` is false
   * and the table is unchanged.
   */
  method Delete(db: Store.Db, value: string) returns (ok: bool)
    requires db.Valid()
    modifies db`apiKeys
    ensures db.Valid()
    ensures ok <==> exists i :: 0 <= i < |old(db.apiKeys)| && AsInteger(value) == Some(old(db.apiKeys)[i].id)
    ensures ok ==> AsInteger(value).Some?
    ensures ok ==> db.apiKeys == Table.Without(old(db.apiKeys), KeyId, AsInteger(value).value)
    ensures ok ==> |db.apiKeys| == |old(db.apiKeys)| - 1
    ensures !ok ==> db.apiKeys == old(db.apiKeys)
  {
    var id := AsInteger(value);
    var found := Table.FindFirst(db.apiKeys, (k: ApiKey) => id == Some(k.id));
    match found
    case None =>
      ok := false;
    case Some(i) =>
      Table.RemoveAtIsWithout(db.apiKeys, KeyId, i);
      RemoveKeepsValid(db.apiKeys, i);
      db.apiKeys := db.apiKeys[..i] + db.apiKeys[i + 1..];
      ok := true;
  }

  /** No stored key is ever found by a text that is not a decimal numeral, such as a domain name. */
  lemma DomainNamesMatchNoId(domain: string, keys: seq<ApiKey>)
    requires exists j :: 0 <= j < |domain| && !IsDigit(domain[j])
    ensures forall i :: 0 <= i < |keys| ==> AsInteger(domain) != Some(keys[i].id)
  {
  }

  /**
   * `update`: `merge` then commit. A row that would share its secret, public
   * key or domain with another row fails the commit and nothing changes;
   * otherwise the row with the same id is overwritten in place (or, with an
   * unknown id, inserted in key order).
   */
  method Update(db: Store.Db, apiKeyData: ApiKey) returns (r: Option<ApiKey>)
    requires db.Valid()
    modifies db`apiKeys
    ensures db.Valid()
    ensures r.None? <==> Collides(old(db.apiKeys), apiKeyData)
    ensures r.None? ==> db.apiKeys == old(db.apiKeys)
    ensures r.Some? ==> r.value == apiKeyData
    ensures r.Some? ==> forall i :: 0 <= i < |old(db.apiKeys)| && old(db.apiKeys)[i].id == apiKeyData.id ==>
      db.apiKeys == old(db.apiKeys)[i := apiKeyData]
    ensures r.Some? && !Table.HasId(old(db.apiKeys), KeyId, apiKeyData.id) ==>
      db.apiKeys == Table.InsertById(old(db.apiKeys), KeyId, apiKeyData)
  {
    if Collides(db.apiKeys, apiKeyData) {
      return None;
    }
    ghost var before := db.apiKeys;
    db.apiKeys := Table.Merge(db.apiKeys, KeyId, apiKeyData);
    forall i | 0 <= i < |before| && before[i].id == apiKeyData.id
      ensures db.apiKeys == before[i := apiKeyData]
    {
      Table.MergeExisting(before, KeyId, apiKeyData, i);
    }
    if Table.HasId(before, KeyId, apiKeyData.id) {
      var i :| 0 <= i < |before| && KeyId(before[i]) == apiKeyData.id;
      Table.MergeExisting(before, KeyId, apiKeyData, i);
      ReplaceKeepsValid(before, i, apiKeyData);
    } else {
      Table.MergeAbsent(before, KeyId, apiKeyData);
      InsertKeepsValid(before, apiKeyData);
    }
    r := Some(apiKeyData);
  }

  // ---------------------------------------------------------------- secret keys

  /** An index into `string.ascii_lowercase + string.digits`: one `random.choice`. */
  type SecretPick = i: int | 0 <= i < 36

  predicate IsSecretChar(c: char)
  {
    'a' <= c <= 'z' || '0' <= c <= '9'
  }

  /** `(string.ascii_lowercase + string.digits)[i]`. */
  function SecretChar(i: SecretPick): (c: char)
    ensures IsSecretChar(c)
  {
    if i < 26 then ('a' as int + i) as char else ('0' as int + (i - 26)) as char
  }

  function SecretPickOf(c: char): (i: SecretPick)
    requires IsSecretChar(c)
    ensures SecretChar(i) == c
  {
    if 'a' <= c <= 'z' then c as int - 'a' as int else c as int - '0' as int + 26
  }

  /**
   * `generate_secret_key(length=50)`, given the `length` choices the random
   * source makes. Which strings it can produce is stated by
   * `SecretKeysAreLowercaseAlphanumeric`.
   */
  function GenerateSecretKey(picks: seq<SecretPick>, length: nat := 50): (key: string)
    requires |picks| == length
    ensures |key| == length
  {
    seq(|picks|, i requires 0 <= i < |picks| => SecretChar(picks[i]))
  }

  /**
   * The secret keys of a length are exactly the strings of that length over
   * a-z and 0-9: each such string is what some sequence of choices produces.
   */
  lemma SecretKeysAreLowercaseAlphanumeric(s: string)
    ensures (forall i :: 0 <= i < |s| ==> IsSecretChar(s[i])) <==>
      exists picks: seq<SecretPick> :: |picks| == |s| && GenerateSecretKey(picks, |s|) == s
  {
    if forall i :: 0 <= i < |s| ==> IsSecretChar(s[i]) {
      var picks: seq<SecretPick> := seq(|s|, i requires 0 <= i < |s| => SecretPickOf(s[i]));
      assert GenerateSecretKey(picks, |s|) == s;
    }
  }

  // ---------------------------------------------------------------- public keys

  /** The random input of one public key: two single bytes for the alternates, then `length` bytes. */
  datatype PublicKeyRandom = PublicKeyRandom(alt0: Base64.Byte, alt1: Base64.Byte, bytes: seq<Base64.Byte>)

  /** `(string.ascii_letters + string.digits)[i]`: a-z, then A-Z, then 0-9. */
  function LetterOrDigit(i: int): (c: char)
    requires 0 <= i < 62
    ensures Base64.IsAlphanumeric(c)
  {
    if i < 26 then ('a' as int + i) as char
    else if i < 52 then ('A' as int + (i - 26)) as char
    else ('0' as int + (i - 52)) as char
  }

  /** One alternate character: `choices[ord(os.urandom(1)) % 62]`. */
  function AltChar(b: Base64.Byte): (c: char)
    ensures Base64.IsAlphanumeric(c)
  {
    LetterOrDigit(b % 62)
  }

  /** `altchars` as `b64encode` applies them: `+` becomes `plus`, `/` becomes `slash`, nothing else changes. */
  function Translate(s: string, plus: char, slash: char): (r: string)
    ensures |r| == |s|
  {
    seq(|s|, i requires 0 <= i < |s| => if s[i] == '+' then plus else if s[i] == '/' then slash else s[i])
  }

  /**
   * `generate_public_key(length=50)`: the Base 64 encoding of `length`
   * random bytes with the two alternates in place of `+` and `/`. It has
   * 4 characters per started group of 3 bytes.
   */
  function GeneratePublicKey(rnd: PublicKeyRandom, length: nat := 50): (key: string)
    requires |rnd.bytes| == length
    ensures |key| == 4 * ((length + 2) / 3)
  {
    Translate(Base64.Encode(rnd.bytes), AltChar(rnd.alt0), AltChar(rnd.alt1))
  }

  /** A public key is alphanumeric characters followed by the `=` padding: the alternates leave no `+` or `/`. */
  lemma PublicKeyShape(rnd: PublicKeyRandom, length: nat)
    requires |rnd.bytes| == length
    ensures var key := GeneratePublicKey(rnd, length);
      && Base64.PadLength(length) <= |key|
      && (forall i :: 0 <= i < |key| - Base64.PadLength(length) ==> Base64.IsAlphanumeric(key[i]))
      && (forall i :: |key| - Base64.PadLength(length) <= i < |key| ==> key[i] == '=')
  {
    Base64.EncodeShape(rnd.bytes);
  }

  /** With the default length of 50 the key has 68 characters: 67 alphanumeric and one `=`. */
  lemma DefaultPublicKeyShape(rnd: PublicKeyRandom)
    requires |rnd.bytes| == 50
    ensures var key := GeneratePublicKey(rnd);
      && |key| == 68
      && key[67] == '='
      && forall i :: 0 <= i < 67 ==> Base64.IsAlphanumeric(key[i])
  {
    PublicKeyShape(rnd, 50);
    assert Base64.PadLength(50) == 1;
  }

  /** When the encoding used neither `+` nor `/`, the key is plain Base 64 and decodes to the random bytes. */
  lemma PublicKeyDecodes(rnd: PublicKeyRandom)
    requires forall i :: 0 <= i < |Base64.Encode(rnd.bytes)| ==> Base64.Encode(rnd.bytes)[i] != '+' && Base64.Encode(rnd.bytes)[i] != '/'
    ensures Base64.Decode(GeneratePublicKey(rnd, |rnd.bytes|)) == rnd.bytes
  {
    var e := Base64.Encode(rnd.bytes);
    assert Translate(e, AltChar(rnd.alt0), AltChar(rnd.alt1)) == e;
    Base64.RoundTrip(rnd.bytes);
  }

  /**
   * The alternates are drawn from the 62 characters the alphabet already
   * uses, so a key may not determine its bytes: with `A` standing for `+`,
   * the byte 0xF8 ("+A==") and the byte 0x00 ("AA==") give the same key.
   */
  lemma PublicKeyNotInjective(alt1: Base64.Byte)
    ensures GeneratePublicKey(PublicKeyRandom(26, alt1, [0xF8]), 1) == GeneratePublicKey(PublicKeyRandom(26, alt1, [0x00]), 1)
  {
    assert Base64.Encode([0xF8]) == ['+', 'A', '=', '='];
    assert Base64.Encode([0x00]) == ['A', 'A', '=', '='];
    assert AltChar(26) == 'A';
  }
}
