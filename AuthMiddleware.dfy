/**
 * The `authenticateUser` middleware of src/middlewares/auth.js. It reads
 * the Authorization header, insists on the exact prefix "Bearer ", takes
 * the second space-separated field as the token and hands it to the token
 * verifier, modelled here as a function parameter: its three possible
 * reactions are a decoded payload, an error passed to the callback, or an
 * exception thrown before any callback.
 */
module AuthMiddleware {
  import opened Wrappers
  import opened NoteModel

  const BearerPrefix: string := "Bearer "
  const MissingOrInvalidFormat: string := "Unauthorized: Missing or invalid token format"
  const InvalidToken: string := "Unauthorized: Invalid token"

  /** The decoded payload of an access token, as signed at signup and login. */
  datatype Claims = Claims(userId: UserId)

  /** What the verifier does with a token. */
  datatype Verification = Decoded(user: Claims) | Rejected | Threw

  /** A JSON error body, or the bare status text that `sendStatus` writes. */
  datatype Body = ErrorJson(error: string) | StatusText

  /**
   * The middleware's effect: either it answers the request itself, or it
   * sets `req.user` and calls `next`. The two are alternatives of one
   * datatype, so exactly one of them happens.
   */
  datatype Decision = Respond(status: nat, body: Body) | Next(user: Claims)

  predicate StartsWith(s: string, prefix: string) {
    |prefix| <= |s| && s[..|prefix|] == prefix
  }

  /** No field contains the separator. */
  predicate SepFree(s: string, sep: char) {
    forall i :: 0 <= i < |s| ==> s[i] != sep
  }

  /** JavaScript's `s.split(sep)` for a one-character separator. */
  function Split(s: string, sep: char): (fields: seq<string>)
    ensures |fields| >= 1
    ensures forall k :: 0 <= k < |fields| ==> SepFree(fields[k], sep)
    decreases |s|
  {
    if s == [] then [""]
    else if s[0] == sep then [""] + Split(s[1..], sep)
    else
      var rest := Split(s[1..], sep);
      [[s[0]] + rest[0]] + rest[1..]
  }

  /** `fields.join(sep)`. */
  function Join(fields: seq<string>, sep: char): string
    requires |fields| >= 1
    decreases |fields|
  {
    if |fields| == 1 then fields[0] else fields[0] + [sep] + Join(fields[1..], sep)
  }

  /** Splitting loses nothing: joining the fields again gives back the string. */
  lemma {:induction false} JoinSplit(s: string, sep: char)
    ensures Join(Split(s, sep), sep) == s
    decreases |s|
  {
    if s == [] {
    } else if s[0] == sep {
      JoinSplit(s[1..], sep);
      assert ([""] + Split(s[1..], sep))[1..] == Split(s[1..], sep);
    } else {
      var rest := Split(s[1..], sep);
      JoinSplit(s[1..], sep);
      var fields := [[s[0]] + rest[0]] + rest[1..];
      if |rest| == 1 {
        assert Join(fields, sep) == [s[0]] + rest[0];
      } else {
        assert fields[1..] == rest[1..];
        assert Join(rest, sep) == rest[0] + [sep] + Join(rest[1..], sep);
      }
    }
  }

  /**
   * A first field free of separators followed by a separator splits off:
   * the fields of `w + [sep] + rest` are `w` and then the fields of `rest`.
   */
  lemma {:induction false} SplitAfterWord(w: string, sep: char, rest: string)
    requires SepFree(w, sep)
    ensures Split(w + [sep] + rest, sep) == [w] + Split(rest, sep)
    decreases |w|
  {
    var s := w + [sep] + rest;
    if w == [] {
      assert s[1..] == rest;
    } else {
      assert s[1..] == w[1..] + [sep] + rest;
      SplitAfterWord(w[1..], sep, rest);
      assert [w[0]] + w[1..] == w;
    }
  }

  /**
   * The first field of a string is its longest separator-free prefix: it is
   * a prefix and is followed either by the end or by a separator.
   */
  lemma {:induction false} FirstField(s: string, sep: char)
    ensures var f := Split(s, sep)[0];
      |f| <= |s| && s[..|f|] == f && (|f| == |s| || s[|f|] == sep)
    decreases |s|
  {
    if s != [] && s[0] != sep {
      FirstField(s[1..], sep);
    }
  }

  /**
   * `authHeader.split(' ')[1]` for a header that starts with "Bearer ":
   * the text after the prefix up to the next space (or to the end).
   */
  function TokenOf(header: string): (token: string)
    requires StartsWith(header, BearerPrefix)
    ensures var rest := header[|BearerPrefix|..];
      && |token| <= |rest| && rest[..|token|] == token
      && SepFree(token, ' ')
      && (|token| == |rest| || rest[|token|] == ' ')
  {
    var rest := header[|BearerPrefix|..];
    assert header == "Bearer" + [' '] + rest;
    SplitAfterWord("Bearer", ' ', rest);
    FirstField(rest, ' ');
    Split(header, ' ')[1]
  }

  /**
   * authenticateUser: 401 when the header is missing or lacks the "Bearer "
   * prefix, 403 when the verifier rejects the token, 401 with another
   * message when it throws, and otherwise `next` with the decoded user.
   */
  function Authenticate(header: Option<string>, verify: string -> Verification): (d: Decision)
    ensures (header.None? || !StartsWith(header.value, BearerPrefix)) ==>
      d == Respond(401, ErrorJson(MissingOrInvalidFormat))
    ensures header.Some? && StartsWith(header.value, BearerPrefix) ==>
      match verify(TokenOf(header.value))
      case Decoded(user) => d == Next(user)
      case Rejected => d == Respond(403, StatusText)
      case Threw => d == Respond(401, ErrorJson(InvalidToken))
  {
    if header.None? || !StartsWith(header.value, BearerPrefix) then
      Respond(401, ErrorJson(MissingOrInvalidFormat))
    else
      match verify(TokenOf(header.value))
      case Decoded(user) => Next(user)
      case Rejected => Respond(403, StatusText)
      case Threw => Respond(401, ErrorJson(InvalidToken))
  }

  /** `next` is called exactly when a well-formed header carries a token the verifier accepts. */
  lemma NextOnlyForAcceptedToken(header: Option<string>, verify: string -> Verification)
    ensures Authenticate(header, verify).Next? <==>
      header.Some? && StartsWith(header.value, BearerPrefix) && verify(TokenOf(header.value)).Decoded?
  {
  }

  /** "Bearer abc" hands the token "abc" to the verifier. */
  lemma BearerAbc()
    ensures TokenOf("Bearer abc") == "abc"
  {
    assert "Bearer abc" == "Bearer" + [' '] + "abc";
    SplitAfterWord("Bearer", ' ', "abc");
  }
}
