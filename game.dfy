/**
 * The guessing game's application state (src/main.rs): the in-memory session
 * store `AppState.db`, the `newgame` and `guess` handlers' effects on it, the
 * secret-word normalisation, and the `AppError` status mapping.
 *
 * Words are sequences of characters; the source measures them in bytes, which
 * is the same count for ASCII words.
 */
module Game {
  import opened Results
  import opened Grading
  import ApiTypes

  /** `Uuid`: an opaque 128-bit session identifier. */
  newtype SessionId = x: int | 0 <= x < 0x1_0000_0000_0000_0000_0000_0000_0000_0000

  /** One game: the secret word and the guesses list, which no handler ever appends to. */
  datatype SessionState = SessionState(word: string, guesses: seq<string>)

  /** Errors of the `lastfm` client: the transport and XML payloads are not modelled. */
  datatype ClientError = Http | Decoding | Api(error: ApiTypes.Error)

  datatype AppError =
    | NoSession
    | GradingError(grading: Grading.GradingError)
    | LastFmError(client: ClientError)
    | MissingParam(name: string)
    | NoAlbums

  datatype NewGameResult = NewGameResult(id: SessionId, len: nat)

  /** `SessionState::new`: a session over `word` that has recorded no guesses. */
  function NewSession(word: string): (s: SessionState)
    ensures s.word == word && s.guesses == []
  {
    SessionState(word, [])
  }

  /** HTTP status of an error response: 404 for a missing session, 500 for Last.fm failures, 400 otherwise. */
  function StatusCode(e: AppError): (code: nat)
    ensures code == 404 <==> e.NoSession?
    ensures code == 500 <==> e.LastFmError?
    ensures code == 400 <==> (e.NoAlbums? || e.MissingParam? || e.GradingError?)
  {
    match e
    case NoSession => 404
    case NoAlbums | MissingParam(_) | GradingError(_) => 400
    case LastFmError(_) => 500
  }

  /** ASCII lowercasing of one character; every other character is kept. */
  function Lower(c: char): (l: char)
    ensures 'A' <= c <= 'Z' ==> l as int == c as int + ('a' as int - 'A' as int)
    ensures !('A' <= c <= 'Z') ==> l == c
    ensures !('A' <= l <= 'Z')
    ensures l == ' ' <==> c == ' '
  {
    if 'A' <= c <= 'Z' then (c as int + ('a' as int - 'A' as int)) as char else c
  }

  /** ASCII `to_lowercase`, applied character by character. The ensures is this definition stated
      pointwise; the properties of the result are proved in `NormalizeShape` and `SpacesPreserved`. */
  function Lowercase(s: string): (r: string)
    ensures |r| == |s| && forall k :: 0 <= k < |s| ==> r[k] == Lower(s[k])
  {
    seq(|s|, k requires 0 <= k < |s| => Lower(s[k]))
  }

  /** `replace(' ', "")`: drops the space characters and keeps every other character in order. */
  function RemoveSpaces(s: string): (r: string)
    ensures |r| == |s| - multiset(s)[' ']
    ensures ' ' !in r
    ensures multiset(r) == multiset(s)[' ' := 0]
  {
    if s == [] then []
    else
      assert s == [s[0]] + s[1..];
      var rest := RemoveSpaces(s[1..]);
      if s[0] == ' ' then rest else [s[0]] + rest
  }

  /** Removing spaces from a single character keeps it unless it is a space. */
  lemma RemoveSpacesSingle(c: char)
    ensures RemoveSpaces([c]) == if c == ' ' then [] else [c]
  {
  }

  /** Removing spaces works piecewise, so the kept characters stay in their original order. */
  lemma {:induction false} RemoveSpacesConcat(a: string, b: string)
    ensures RemoveSpaces(a + b) == RemoveSpaces(a) + RemoveSpaces(b)
  {
    if a == [] {
      assert a + b == b;
    } else {
      assert (a + b)[0] == a[0];
      assert (a + b)[1..] == a[1..] + b;
      RemoveSpacesConcat(a[1..], b);
    }
  }

  /** The secret word made from a chosen album name: lowercased, spaces removed. */
  function Normalize(name: string): (w: string)
  {
    RemoveSpaces(Lowercase(name))
  }

  /** A normalised word has no space and no upper-case letter, and loses exactly the spaces of the name. */
  lemma NormalizeShape(name: string)
    ensures ' ' !in Normalize(name)
    ensures forall c :: c in Normalize(name) ==> !('A' <= c <= 'Z')
    ensures |Normalize(name)| == |name| - multiset(name)[' ']
  {
    var low := Lowercase(name);
    assert multiset(low)[' '] == multiset(name)[' '] by {
      SpacesPreserved(name);
    }
    forall c | c in Normalize(name)
      ensures !('A' <= c <= 'Z')
    {
      assert c in multiset(Normalize(name));
      assert c in multiset(low);
      assert c in low;
    }
  }

  /** Lowercasing neither adds nor removes spaces. */
  lemma {:induction false} SpacesPreserved(s: string)
    ensures multiset(Lowercase(s))[' '] == multiset(s)[' ']
  {
    if s != [] {
      SpacesPreserved(s[1..]);
      assert s == [s[0]] + s[1..];
      assert Lowercase(s) == [Lower(s[0])] + Lowercase(s[1..]);
    }
  }

  lemma {:induction false} RemoveSpacesFixed(s: string)
    requires ' ' !in s
    ensures RemoveSpaces(s) == s
  {
    if s != [] {
      assert s == [s[0]] + s[1..];
      RemoveSpacesFixed(s[1..]);
    }
  }

  /** Normalising a secret word again changes nothing. */
  lemma NormalizeIdempotent(name: string)
    ensures Normalize(Normalize(name)) == Normalize(name)
  {
    var w := Normalize(name);
    NormalizeShape(name);
    forall k | 0 <= k < |w|
      ensures Lowercase(w)[k] == w[k]
    {
      assert w[k] in w;
    }
    assert Lowercase(w) == w;
    RemoveSpacesFixed(w);
  }

  /** `AppState`: the session store, a map from session id to game. */
  class AppState {
    var db: map<SessionId, SessionState>

    /** No session ever records a guess: nothing appends to `guesses`. */
    ghost predicate Valid()
      reads this
    {
      forall id :: id in db ==> db[id].guesses == []
    }

    /** `AppState::default()`: an empty store. */
    constructor ()
      ensures Valid() && db == map[]
    {
      db := map[];
    }

    /**
     * `newgame`: given the outcome of fetching the top album names and a
     * fresh id, pick one name, normalise it, and store it as a new session.
     */
    method NewGame(topAlbums: Result<seq<string>, ClientError>, id: SessionId) returns (r: Result<NewGameResult, AppError>)
      requires Valid()
      requires id !in db
      modifies this
      ensures Valid()
      ensures topAlbums.Err? ==> r == Err(LastFmError(topAlbums.error)) && db == old(db)
      ensures topAlbums == Ok([]) ==> r == Err(NoAlbums) && db == old(db)
      ensures topAlbums.Ok? && topAlbums.value != [] ==>
        && r.Ok? && r.value.id == id
        && (exists k :: 0 <= k < |topAlbums.value| && db == old(db)[id := NewSession(Normalize(topAlbums.value[k]))])
        && r.value.len == |db[id].word|
    {
      if topAlbums.Err? {
        return Err(LastFmError(topAlbums.error));
      }
      var names := topAlbums.value;
      if names == [] {
        return Err(NoAlbums);
      }
      var k :| 0 <= k < |names|;
      var word := Normalize(names[k]);
      var len := |word|;
      db := db[id := NewSession(word)];
      r := Ok(NewGameResult(id, len));
    }

    /**
     * `guess`: grade a guess against the session's word; a fully correct
     * guess ends the session.
     */
    method Guess(id: SessionId, guess: string) returns (r: Result<seq<Grade>, AppError>)
      requires Valid()
      modifies this
      ensures Valid()
      ensures id !in old(db) ==> r == Err(NoSession) && db == old(db)
      ensures id in old(db) && Graded(old(db)[id].word, guess).Err? ==>
        r == Err(GradingError(Graded(old(db)[id].word, guess).error)) && db == old(db)
      ensures id in old(db) && Graded(old(db)[id].word, guess).Ok? ==>
        && r == Ok(Graded(old(db)[id].word, guess).value)
        && db == if AllCorrect(r.value) then old(db) - {id} else old(db)
      ensures id in old(db) ==> (r.Ok? && id !in db <==> guess == old(db)[id].word)
    {
      if id !in db {
        return Err(NoSession);
      }
      var word := db[id].word;
      var graded := GradeWord(word, guess);
      if graded.Err? {
        return Err(GradingError(graded.error));
      }
      var grade := graded.value;
      SolvedIffEqual(word, guess);
      if AllCorrect(grade) {
        db := db - {id};
      }
      r := Ok(grade);
    }
  }
}
