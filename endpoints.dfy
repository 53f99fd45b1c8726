/**
 * The request handlers of the service, each one request taken as one atomic
 * step over the store. A handler answers with a status and a body: the
 * record or text it returns, the detail of an HTTP error it raises, or, for
 * any other exception, the 400 of the catch-all exception handler.
 *
 * Guarded handlers read the `Authorization` header. `create_movie` looks up
 * the header without its first seven characters (the `Bearer ` prefix);
 * every other guarded handler looks up the header as it is.
 */
module Endpoints {
  import opened Wrappers
  import opened MovieModel
  import opened ApiKeyModel
  import Table
  import Store
  import MovieRepository
  import ApiKeyRepository
  import Base64

  datatype Body =
    | MovieBody(movie: Movie)
    | MovieListBody(movies: seq<Movie>)
    | KeyBody(key: ApiKey)
    | DomainBody(secret: string, public: string, domain: string)
    | Text(text: string)
    | Detail(detail: string)
    | ExecutionFailed

  datatype Response = Response(status: int, body: Body)

  /** What the catch-all exception handler answers; its message text is not modelled. */
  const Failed := Response(400, ExecutionFailed)
  const NoAuthorization := Response(403, Detail("No authorization found"))
  const BadCredentials := Response(403, Detail("Could not validate credentials"))
  const MovieNotFound := "Movie not found with the given ID"
  const KeyNotFoundById := "Key not found with the given ID"
  const KeyNotFoundByDomain := "Key not found with the given domain"

  /** The body of `PUT /movies/{id}`: a whole movie, id included (the id is not used). */
  datatype MoviePayload = MoviePayload(
    id: int, title: string, subtitle: Option<string>, price: Price, description: Option<string>)

  /** The body of `PUT /keys/{domain}`: a whole key record. */
  datatype ApiKeyPayload = ApiKeyPayload(id: int, secret: Option<string>, public: Option<string>, domain: string)

  /** One pass of the key-generation loop: the random choices of a secret and of a public key, at the default length 50. */
  datatype KeyDraw = KeyDraw(secretPicks: seq<ApiKeyRepository.SecretPick>, publicRandom: ApiKeyRepository.PublicKeyRandom)
  type Attempt = a: KeyDraw | |a.secretPicks| == 50 && |a.publicRandom.bytes| == 50
    witness KeyDraw(seq(50, _ => 0), ApiKeyRepository.PublicKeyRandom(0, 0, seq(50, _ => 0)))

  function SecretOfAttempt(a: Attempt): string
  {
    ApiKeyRepository.GenerateSecretKey(a.secretPicks)
  }

  function PublicOfAttempt(a: Attempt): string
  {
    ApiKeyRepository.GeneratePublicKey(a.publicRandom)
  }

  // ---------------------------------------------------------------- credentials

  /** `validate_public_key`: a present, non-empty header is passed on as it is; anything else is a 403. */
  function ValidatePublicKey(header: Option<string>): (token: Option<string>)
    ensures token.Some? <==> header.Some? && |header.value| > 0
    ensures token.Some? ==> token.value == header.value
  {
    if header.Some? && header.value != "" then header else None
  }

  /** Python's `s[n:]`: the characters after the first n, empty when there are no more. */
  function DropPrefix(s: string, n: nat): (r: string)
    ensures |r| == if |s| <= n then 0 else |s| - n
    ensures forall i :: 0 <= i < |r| ==> r[i] == s[n + i]
  {
    if |s| <= n then "" else s[n..]
  }

  /** The credential check of `create_movie`: the header minus its first 7 characters is a stored public key. */
  predicate CreateAuthorized(keys: seq<ApiKey>, header: Option<string>): (b: bool)
    ensures b <==> (header.Some? && header.value != "" &&
      exists i :: 0 <= i < |keys| && keys[i].public == DropPrefix(header.value, 7))
  {
    ValidatePublicKey(header).Some? &&
    ApiKeyRepository.FetchByPublic(keys, DropPrefix(header.value, 7)).Some?
  }

  /** The credential check of every other guarded handler: the header itself is a stored public key. */
  predicate RawAuthorized(keys: seq<ApiKey>, header: Option<string>): (b: bool)
    ensures b <==> (header.Some? && header.value != "" &&
      exists i :: 0 <= i < |keys| && keys[i].public == header.value)
  {
    ValidatePublicKey(header).Some? &&
    ApiKeyRepository.FetchByPublic(keys, header.value).Some?
  }

  /** `create_movie` accepts `Bearer <k>` exactly when k is a stored public key. */
  lemma BearerHeaderAuthorizesCreate(keys: seq<ApiKey>, publicKey: string)
    ensures CreateAuthorized(keys, Some("Bearer " + publicKey)) <==>
      ApiKeyRepository.FetchByPublic(keys, publicKey).Some?
  {
    assert DropPrefix("Bearer " + publicKey, 7) == publicKey;
  }

  /**
   * The other guarded handlers refuse `Bearer <k>` whenever no stored public
   * key contains a space, which is the case for every generated key.
   */
  lemma BearerHeaderFailsRawCheck(keys: seq<ApiKey>, publicKey: string)
    requires forall i :: 0 <= i < |keys| ==> ' ' !in keys[i].public
    ensures !RawAuthorized(keys, Some("Bearer " + publicKey))
  {
    var header := "Bearer " + publicKey;
    assert ' ' in header by {
      assert header[6] == ' ';
    }
    forall i | 0 <= i < |keys| ensures keys[i].public != header {
    }
  }

  /** A generated public key never contains a space. */
  lemma GeneratedPublicKeyHasNoSpace(rnd: ApiKeyRepository.PublicKeyRandom)
    ensures ' ' !in ApiKeyRepository.GeneratePublicKey(rnd, |rnd.bytes|)
  {
    var key := ApiKeyRepository.GeneratePublicKey(rnd, |rnd.bytes|);
    ApiKeyRepository.PublicKeyShape(rnd, |rnd.bytes|);
    forall i | 0 <= i < |key| ensures key[i] != ' ' {
      if i < |key| - Base64.PadLength(|rnd.bytes|) {
        assert Base64.IsAlphanumeric(key[i]);
      }
    }
  }

  // ---------------------------------------------------------------- movies

  /**
   * `POST /movies` (`create_movie`): credential check on the header minus
   * its `Bearer ` prefix, then the duplicate check (on the title alone),
   * then the insert.
   */
  method CreateMovie(db: Store.Db, authorization: Option<string>, movieRequest: MovieCreate) returns (r: Response)
    requires db.Valid()
    modifies db`movies
    ensures db.Valid()
    ensures ValidatePublicKey(authorization).None? ==> r == NoAuthorization && db.movies == old(db.movies)
    ensures ValidatePublicKey(authorization).Some? && !CreateAuthorized(db.apiKeys, authorization) ==>
      r == BadCredentials && db.movies == old(db.movies)
    ensures (CreateAuthorized(db.apiKeys, authorization) &&
      MovieRepository.FetchByTitleAndSubtitle(old(db.movies), movieRequest.title, movieRequest.subtitle).Some?) ==>
      r == Response(400, Detail("Movie already exists!")) && db.movies == old(db.movies)
    ensures (CreateAuthorized(db.apiKeys, authorization) &&
      MovieRepository.FetchByTitleAndSubtitle(old(db.movies), movieRequest.title, movieRequest.subtitle).None?) ==>
      && r.status == 201 && r.body.MovieBody?
      && r.body.movie == Movie(r.body.movie.id, movieRequest.title, movieRequest.subtitle, movieRequest.price, movieRequest.description)
      && (forall i :: 0 <= i < |old(db.movies)| ==> old(db.movies)[i].id < r.body.movie.id)
      && db.movies == old(db.movies) + [r.body.movie]
  {
    var apiKey := ValidatePublicKey(authorization);
    if apiKey.None? {
      return NoAuthorization;
    }
    var dbExistingKey := ApiKeyRepository.FetchByPublic(db.apiKeys, DropPrefix(apiKey.value, 7));
    if dbExistingKey.Some? {
      var dbMovie := MovieRepository.FetchByTitleAndSubtitle(db.movies, movieRequest.title, movieRequest.subtitle);
      if dbMovie.Some? {
        return Response(400, Detail("Movie already exists!"));
      }
    } else {
      return BadCredentials;
    }
    var m := MovieRepository.Create(db, movieRequest);
    r := Response(201, MovieBody(m));
  }

  /**
   * The validation of a `List[Movie]` response: a list holding None does
   * not validate, and the exception this raises reaches the catch-all.
   */
  function MovieListResponse(items: seq<Option<Movie>>): (r: Response)
    ensures r.status == 200 <==> forall i :: 0 <= i < |items| ==> items[i].Some?
    ensures r.status == 200 ==> r.body.MovieListBody? && |r.body.movies| == |items|
    ensures r.status == 200 ==> forall i :: 0 <= i < |items| ==> items[i] == Some(r.body.movies[i])
    ensures r.status != 200 ==> r == Failed
  {
    if forall i :: 0 <= i < |items| ==> items[i].Some? then
      Response(200, MovieListBody(seq(|items|, i requires 0 <= i < |items| => items[i].value)))
    else Failed
  }

  /**
   * `GET /movies` (`get_all_movies`): with a non-empty title, the one-element
   * list holding the title lookup (a 400 when nothing matches); otherwise
   * the first 50 movies in table order.
   */
  method GetAllMovies(db: Store.Db, title: Option<string>) returns (r: Response)
    ensures title.Some? && title.value != "" ==>
      match MovieRepository.FetchByTitle(db.movies, title.value)
      case Some(m) => r == Response(200, MovieListBody([m]))
      case None => r == Failed
    ensures title.None? || title.value == "" ==>
      r == Response(200, MovieListBody(db.movies[..Table.Min(50, |db.movies|)]))
  {
    if title.Some? && title.value != "" {
      var movies: seq<Option<Movie>> := [];
      var dbMovie := MovieRepository.FetchByTitle(db.movies, title.value);
      movies := movies + [dbMovie];
      assert movies == [dbMovie] && (dbMovie.None? ==> !movies[0].Some?);
      r := MovieListResponse(movies);
    } else {
      var all := MovieRepository.FetchAll(db.movies);
      assert all == db.movies[..Table.Min(50, |db.movies|)];
      r := Response(200, MovieListBody(all));
    }
  }

  /**
   * `GET /movies/{id}` (`get_movie`): the stored movie with that id, or a
   * 404. An id outside SQLite's 64-bit range cannot be bound: the lookup
   * raises and the catch-all answers.
   */
  method GetMovie(db: Store.Db, movieId: int) returns (r: Response)
    ensures r.status == 200 || r.status == 404 || r == Failed
    ensures r == Failed <==> !Table.IsInteger(movieId)
    ensures r.status == 404 <==> Table.IsInteger(movieId) && forall i :: 0 <= i < |db.movies| ==> db.movies[i].id != movieId
    ensures r.status == 404 ==> r == Response(404, Detail(MovieNotFound))
    ensures r.status == 200 ==> r.body.MovieBody? && r.body.movie in db.movies && r.body.movie.id == movieId
  {
    if !Table.IsInteger(movieId) {
      return Failed;
    }
    var dbMovie := MovieRepository.FetchMovieById(db.movies, movieId);
    if dbMovie.None? {
      return Response(404, Detail(MovieNotFound));
    }
    r := Response(200, MovieBody(dbMovie.value));
  }

  /**
   * `DELETE /movies/{id}` (`delete_movie`): credential check on the raw
   * header, then the existence check, then the delete. The existence check
   * raises for an id outside SQLite's 64-bit range.
   */
  method DeleteMovie(db: Store.Db, authorization: Option<string>, movieId: int) returns (r: Response)
    requires db.Valid()
    modifies db`movies
    ensures db.Valid()
    ensures ValidatePublicKey(authorization).None? ==> r == NoAuthorization
    ensures ValidatePublicKey(authorization).Some? && !RawAuthorized(db.apiKeys, authorization) ==> r == BadCredentials
    ensures (RawAuthorized(db.apiKeys, authorization) && !Table.IsInteger(movieId)) ==> r == Failed
    ensures (RawAuthorized(db.apiKeys, authorization) && Table.IsInteger(movieId) &&
      MovieRepository.FetchMovieById(old(db.movies), movieId).None?) ==> r == Response(404, Detail(MovieNotFound))
    ensures r.status != 200 ==> db.movies == old(db.movies)
    ensures r.status == 200 <==>
      RawAuthorized(db.apiKeys, authorization) && Table.IsInteger(movieId) &&
      MovieRepository.FetchMovieById(old(db.movies), movieId).Some?
    ensures r.status == 200 ==>
      && r.body == Text("Movie deleted successfully!")
      && db.movies == Table.Without(old(db.movies), MovieId, movieId)
      && |db.movies| == |old(db.movies)| - 1
  {
    var apiKey := ValidatePublicKey(authorization);
    if apiKey.None? {
      return NoAuthorization;
    }
    var dbExistingKey := ApiKeyRepository.FetchByPublic(db.apiKeys, apiKey.value);
    if dbExistingKey.Some? {
      if !Table.IsInteger(movieId) {
        return Failed;
      }
      var dbMovie := MovieRepository.FetchMovieById(db.movies, movieId);
      if dbMovie.None? {
        return Response(404, Detail(MovieNotFound));
      }
    } else {
      return BadCredentials;
    }
    var ok := MovieRepository.Delete(db, movieId);
    r := if ok then Response(200, Text("Movie deleted successfully!")) else Failed;
  }

  /**
   * `PUT /movies/{id}` (`update_movie`): credential check on the raw header;
   * an unknown id is a 400; otherwise title, subtitle, price and description
   * of the stored movie are overwritten and merged back. The lookup raises
   * for an id outside SQLite's 64-bit range.
   */
  method UpdateMovie(db: Store.Db, authorization: Option<string>, movieId: int, movieRequest: MoviePayload)
    returns (r: Response)
    requires db.Valid()
    modifies db`movies
    ensures db.Valid()
    ensures ValidatePublicKey(authorization).None? ==> r == NoAuthorization
    ensures ValidatePublicKey(authorization).Some? && !RawAuthorized(db.apiKeys, authorization) ==> r == BadCredentials
    ensures (RawAuthorized(db.apiKeys, authorization) && !Table.IsInteger(movieId)) ==> r == Failed
    ensures (RawAuthorized(db.apiKeys, authorization) && Table.IsInteger(movieId) &&
      MovieRepository.FetchMovieById(old(db.movies), movieId).None?) ==> r == Response(400, Detail(MovieNotFound))
    ensures r.status != 200 ==> db.movies == old(db.movies)
    ensures r.status == 200 <==>
      RawAuthorized(db.apiKeys, authorization) && Table.IsInteger(movieId) &&
      MovieRepository.FetchMovieById(old(db.movies), movieId).Some?
    ensures r.status == 200 ==>
      var updated := Movie(movieId, movieRequest.title, movieRequest.subtitle, movieRequest.price, movieRequest.description);
      && r == Response(200, MovieBody(updated))
      && exists i :: 0 <= i < |old(db.movies)| && old(db.movies)[i].id == movieId && db.movies == old(db.movies)[i := updated]
  {
    var apiKey := ValidatePublicKey(authorization);
    if apiKey.None? {
      return NoAuthorization;
    }
    var dbExistingKey := ApiKeyRepository.FetchByPublic(db.apiKeys, apiKey.value);
    if dbExistingKey.Some? {
      if !Table.IsInteger(movieId) {
        return Failed;
      }
      var dbMovie := MovieRepository.FetchMovieById(db.movies, movieId);
      if dbMovie.Some? {
        var movie := dbMovie.value.(
          title := movieRequest.title,
          subtitle := movieRequest.subtitle,
          price := movieRequest.price,
          description := movieRequest.description);
        ghost var i :| 0 <= i < |db.movies| && db.movies[i] == dbMovie.value;
        var m := MovieRepository.Update(db, movie);
        return Response(200, MovieBody(m));
      } else {
        return Response(400, Detail(MovieNotFound));
      }
    } else {
      return BadCredentials;
    }
  }

  // ---------------------------------------------------------------- keys

  /** An attempt ends the generation loop when its secret or its public key is not stored yet. */
  predicate EndsLoop(keys: seq<ApiKey>, a: Attempt): (b: bool)
    ensures keys == [] ==> b
  {
    ApiKeyRepository.FetchBySecret(keys, SecretOfAttempt(a)).None? ||
    ApiKeyRepository.FetchByPublic(keys, PublicOfAttempt(a)).None?
  }

  /** The loop ends at an attempt exactly when no stored row has its secret, or no stored row has its public key. */
  lemma EndsLoopMeans(keys: seq<ApiKey>, a: Attempt)
    ensures EndsLoop(keys, a) <==>
      (forall i :: 0 <= i < |keys| ==> keys[i].secret != SecretOfAttempt(a)) ||
      (forall i :: 0 <= i < |keys| ==> keys[i].public != PublicOfAttempt(a))
  {
  }

  /**
   * The loop of `create_api_key`: draw a secret and a public key while
   * neither is new, checking each against the stored keys. It stops at the
   * first attempt where at least one of the two is new; the other may still
   * be taken. (With a random source that never yields a new key the loop
   * does not end, so such a source is excluded.)
   */
  method GenerateKeyPair(db: Store.Db, attempts: seq<Attempt>) returns (secretKey: string, publicKey: string, used: nat)
    requires exists k :: 0 <= k < |attempts| && EndsLoop(db.apiKeys, attempts[k])
    ensures used < |attempts|
    ensures secretKey == SecretOfAttempt(attempts[used]) && publicKey == PublicOfAttempt(attempts[used])
    ensures ApiKeyRepository.FetchBySecret(db.apiKeys, secretKey).None? ||
      ApiKeyRepository.FetchByPublic(db.apiKeys, publicKey).None?
    ensures forall k :: 0 <= k < used ==> !EndsLoop(db.apiKeys, attempts[k])
  {
    var keys := db.apiKeys;
    ghost var endsLoop := (a: Attempt) => EndsLoop(keys, a);
    ghost var w := Table.FindFirst(attempts, endsLoop).value;
    var isSecretKeyUnique, isPublicKeyUnique := false, false;
    secretKey, publicKey := "", "";
    used := 0;
    var next := 0;
    while !isSecretKeyUnique && !isPublicKeyUnique
      invariant !isSecretKeyUnique && !isPublicKeyUnique ==> next <= w
      invariant isSecretKeyUnique || isPublicKeyUnique ==> next == w + 1
      invariant next > 0 ==> used == next - 1
      invariant next > 0 ==> secretKey == SecretOfAttempt(attempts[used]) && publicKey == PublicOfAttempt(attempts[used])
      decreases w + 1 - next
    {
      var draw := attempts[next];
      if !isSecretKeyUnique {
        secretKey := SecretOfAttempt(draw);
        var dbExistingSecret := ApiKeyRepository.FetchBySecret(keys, secretKey);
        if dbExistingSecret.None? {
          isSecretKeyUnique := true;
        }
      }
      if !isPublicKeyUnique {
        publicKey := PublicOfAttempt(draw);
        var dbExistingPublic := ApiKeyRepository.FetchByPublic(keys, publicKey);
        if dbExistingPublic.None? {
          isPublicKeyUnique := true;
        }
      }
      assert endsLoop(draw) == (isSecretKeyUnique || isPublicKeyUnique);
      used := next;
      next := next + 1;
    }
    forall k | 0 <= k < used ensures !EndsLoop(keys, attempts[k]) {
      assert !endsLoop(attempts[k]);
    }
  }

  /**
   * `POST /keys` (`create_api_key`): a registered domain is a 400; otherwise
   * the loop picks a secret and a public key and the record is inserted.
   * The insert fails, and the request is a 400, when the key of the pair
   * the loop did not check as new is in fact taken.
   */
  method CreateApiKey(db: Store.Db, keyRequest: ApiKeyCreate, attempts: seq<Attempt>) returns (r: Response)
    requires db.Valid()
    requires ApiKeyRepository.FetchByDomain(db.apiKeys, keyRequest.domain).None? ==>
      exists k :: 0 <= k < |attempts| && EndsLoop(db.apiKeys, attempts[k])
    modifies db`apiKeys
    ensures db.Valid()
    ensures ApiKeyRepository.FetchByDomain(old(db.apiKeys), keyRequest.domain).Some? ==>
      r == Response(400, Detail("Domain already exists!")) && db.apiKeys == old(db.apiKeys)
    ensures r.status != 201 ==> db.apiKeys == old(db.apiKeys)
    ensures r.status == 201 || r == Failed || r == Response(400, Detail("Domain already exists!"))
    ensures (ApiKeyRepository.FetchByDomain(old(db.apiKeys), keyRequest.domain).None? && r.status != 201) ==> r == Failed
    ensures ApiKeyRepository.FetchByDomain(old(db.apiKeys), keyRequest.domain).None? ==>
      exists k :: 0 <= k < |attempts| && EndsLoop(old(db.apiKeys), attempts[k]) &&
        (forall j :: 0 <= j < k ==> !EndsLoop(old(db.apiKeys), attempts[j])) &&
        var secretKey, publicKey := SecretOfAttempt(attempts[k]), PublicOfAttempt(attempts[k]);
        (r.status == 201 <==>
          ApiKeyRepository.FetchBySecret(old(db.apiKeys), secretKey).None? &&
          ApiKeyRepository.FetchByPublic(old(db.apiKeys), publicKey).None?) &&
        (r.status == 201 ==>
          && r.body.KeyBody?
          && r.body.key.secret == secretKey && r.body.key.public == publicKey
          && r.body.key.domain == keyRequest.domain
          && db.apiKeys == old(db.apiKeys) + [r.body.key])
  {
    var dbKey := ApiKeyRepository.FetchByDomain(db.apiKeys, keyRequest.domain);
    if dbKey.Some? {
      return Response(400, Detail("Domain already exists!"));
    }
    var secretKey, publicKey, used := GenerateKeyPair(db, attempts);
    var request := keyRequest.(secret := Some(secretKey), public := Some(publicKey));
    var created := ApiKeyRepository.Create(db, request);
    if created.None? {
      return Failed;
    }
    r := Response(201, KeyBody(created.value));
  }

  /**
   * `GET /keys/{id}` (`get_key`): credential check on the raw header, then
   * the key with that id or a 404; the lookup raises for an id outside
   * SQLite's 64-bit range.
   */
  method GetKey(db: Store.Db, authorization: Option<string>, keyId: int) returns (r: Response)
    ensures ValidatePublicKey(authorization).None? ==> r == NoAuthorization
    ensures ValidatePublicKey(authorization).Some? && !RawAuthorized(db.apiKeys, authorization) ==> r == BadCredentials
    ensures (RawAuthorized(db.apiKeys, authorization) && !Table.IsInteger(keyId)) ==> r == Failed
    ensures (RawAuthorized(db.apiKeys, authorization) && Table.IsInteger(keyId)) ==>
      match ApiKeyRepository.FetchApiKeyById(db.apiKeys, keyId)
      case None => r == Response(404, Detail(KeyNotFoundById))
      case Some(k) => r == Response(200, KeyBody(k))
    ensures r.status == 200 ==> r.body.KeyBody? && r.body.key in db.apiKeys && r.body.key.id == keyId
  {
    var apiKey := ValidatePublicKey(authorization);
    if apiKey.None? {
      return NoAuthorization;
    }
    var dbExistingKey := ApiKeyRepository.FetchByPublic(db.apiKeys, apiKey.value);
    if dbExistingKey.Some? {
      if !Table.IsInteger(keyId) {
        return Failed;
      }
      var dbKey := ApiKeyRepository.FetchApiKeyById(db.apiKeys, keyId);
      if dbKey.None? {
        return Response(404, Detail(KeyNotFoundById));
      }
      return Response(200, KeyBody(dbKey.value));
    } else {
      return BadCredentials;
    }
  }

  /**
   * `GET /keys/{domain}` (`get_key_using_domain`): credential check on the
   * raw header, then the record of that domain, without its id, or a 404.
   */
  method GetKeyUsingDomain(db: Store.Db, authorization: Option<string>, domain: string) returns (r: Response)
    ensures ValidatePublicKey(authorization).None? ==> r == NoAuthorization
    ensures ValidatePublicKey(authorization).Some? && !RawAuthorized(db.apiKeys, authorization) ==> r == BadCredentials
    ensures RawAuthorized(db.apiKeys, authorization) ==>
      match ApiKeyRepository.FetchByDomain(db.apiKeys, domain)
      case None => r == Response(404, Detail(KeyNotFoundByDomain))
      case Some(k) => r == Response(200, DomainBody(k.secret, k.public, k.domain))
    ensures r.status == 200 ==> r.body.DomainBody? && r.body.domain == domain
  {
    var apiKey := ValidatePublicKey(authorization);
    if apiKey.None? {
      return NoAuthorization;
    }
    var dbExistingKey := ApiKeyRepository.FetchByPublic(db.apiKeys, apiKey.value);
    if dbExistingKey.Some? {
      var dbKey := ApiKeyRepository.FetchByDomain(db.apiKeys, domain);
      if dbKey.None? {
        return Response(404, Detail(KeyNotFoundByDomain));
      }
      var k := dbKey.value;
      return Response(200, DomainBody(k.secret, k.public, k.domain));
    } else {
      return BadCredentials;
    }
  }

  /**
   * `DELETE /keys/{domain}` (`delete_key`): credential check on the raw
   * header and existence of the domain, then the repository delete, which
   * is keyed on the id but is given the domain. A domain that is not a
   * decimal numeral finds no row, the delete raises, and the answer is the
   * catch-all 400 with nothing deleted.
   */
  method DeleteKey(db: Store.Db, authorization: Option<string>, domain: string) returns (r: Response)
    requires db.Valid()
    modifies db`apiKeys
    ensures db.Valid()
    ensures ValidatePublicKey(authorization).None? ==> r == NoAuthorization
    ensures ValidatePublicKey(authorization).Some? && !RawAuthorized(old(db.apiKeys), authorization) ==> r == BadCredentials
    ensures (RawAuthorized(old(db.apiKeys), authorization) &&
      ApiKeyRepository.FetchByDomain(old(db.apiKeys), domain).None?) ==> r == Response(404, Detail(KeyNotFoundByDomain))
    ensures r.status != 200 ==> db.apiKeys == old(db.apiKeys)
    ensures (RawAuthorized(old(db.apiKeys), authorization) &&
      ApiKeyRepository.FetchByDomain(old(db.apiKeys), domain).Some? && r.status != 200) ==> r == Failed
    ensures r.status == 200 <==>
      && RawAuthorized(old(db.apiKeys), authorization)
      && ApiKeyRepository.FetchByDomain(old(db.apiKeys), domain).Some?
      && exists i :: 0 <= i < |old(db.apiKeys)| && ApiKeyRepository.AsInteger(domain) == Some(old(db.apiKeys)[i].id)
    ensures r.status == 200 ==>
      && r.body == Text("Key deleted successfully!")
      && |db.apiKeys| == |old(db.apiKeys)| - 1
      && ApiKeyRepository.AsInteger(domain).Some?
      && db.apiKeys == Table.Without(old(db.apiKeys), KeyId, ApiKeyRepository.AsInteger(domain).value)
  {
    var apiKey := ValidatePublicKey(authorization);
    if apiKey.None? {
      return NoAuthorization;
    }
    var dbExistingKey := ApiKeyRepository.FetchByPublic(db.apiKeys, apiKey.value);
    if dbExistingKey.Some? {
      var dbKey := ApiKeyRepository.FetchByDomain(db.apiKeys, domain);
      if dbKey.None? {
        return Response(404, Detail(KeyNotFoundByDomain));
      }
    } else {
      return BadCredentials;
    }
    var ok := ApiKeyRepository.Delete(db, domain);
    r := if ok then Response(200, Text("Key deleted successfully!")) else Failed;
  }

  /** A JSON value as `jsonable_encoder` produces it for these payloads. */
  datatype Json = JString(s: string) | JInt(n: int) | JNull

  function JsonOption(v: Option<string>): Json
  {
    if v.Some? then JString(v.value) else JNull
  }

  /** `jsonable_encoder` of a key payload: its four fields by name. */
  function EncodeApiKeyPayload(p: ApiKeyPayload): (encoded: map<string, Json>)
    ensures "title" !in encoded && "subtitle" !in encoded
    ensures encoded.Keys == {"id", "secret", "public", "domain"}
  {
    map["id" := JInt(p.id), "secret" := JsonOption(p.secret), "public" := JsonOption(p.public), "domain" := JString(p.domain)]
  }

  /** Python's `d[key]`: the value, or None standing for the KeyError it raises. */
  function Lookup(d: map<string, Json>, key: string): (v: Option<Json>)
    ensures v.Some? <==> key in d
    ensures v.Some? ==> v.value == d[key]
  {
    if key in d then Some(d[key]) else None
  }

  /**
   * `PUT /keys/{domain}` (`update_key`): an unknown domain is a 400; for a
   * known one the handler reads the keys 'title' and 'subtitle' of an
   * encoded key payload, which has neither, and the KeyError becomes the
   * catch-all 400. The store is never written.
   */
  method UpdateKey(db: Store.Db, domain: string, keyRequest: ApiKeyPayload) returns (r: Response)
    ensures ApiKeyRepository.FetchByDomain(db.apiKeys, domain).None? ==> r == Response(400, Detail(KeyNotFoundByDomain))
    ensures ApiKeyRepository.FetchByDomain(db.apiKeys, domain).Some? ==> r == Failed
    ensures r.status == 400
  {
    var dbKey := ApiKeyRepository.FetchByDomain(db.apiKeys, domain);
    if dbKey.Some? {
      var encoded := EncodeApiKeyPayload(keyRequest);
      assert Lookup(encoded, "title").None?;
      r := Failed;
    } else {
      r := Response(400, Detail(KeyNotFoundByDomain));
    }
  }
}
