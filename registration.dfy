/**
 * `register_user`: two retry loops read tokens from standard input until one
 * passes the field check, first for the username and then for the password;
 * when both flags are set the password is hashed and a success message is
 * shown, and the function returns 0.
 *
 * Standard input is a finite sequence of the tokens `scanf("%s", ...)`
 * stores, each the characters between two runs of white space. A token may
 * hold a NUL; what the program checks, and registers, is its C string
 * `CStr(token)`. Both loops read from the same stream, so the password loop
 * starts at the token after the accepted username.
 */
module Registration {
  import opened Validation

  datatype Option<T> = None | Some(value: T)

  /** What a call of `register_user` ends with. */
  datatype Outcome =
    | Registered(username: seq<char>, password: seq<char>)  // the success branch was taken
    | InputExhausted                                          // the tokens ran out inside a retry loop

  /** The position of the first token at or after `from` that the field check accepts. */
  function FirstValid(tokens: seq<seq<char>>, from: nat): (r: Option<nat>)
    requires from <= |tokens|
    ensures r.Some? ==> from <= r.value < |tokens| && ValidField(CStr(tokens[r.value]))
    decreases |tokens| - from
  {
    if from == |tokens| then None
    else if ValidField(CStr(tokens[from])) then Some(from)
    else FirstValid(tokens, from + 1)
  }

  /** FirstValid finds exactly the first accepted token from `from` on. */
  lemma {:induction false} FirstValidIsFirst(tokens: seq<seq<char>>, from: nat, k: nat)
    requires from <= |tokens|
    ensures FirstValid(tokens, from) == Some(k) <==>
              from <= k < |tokens| && ValidField(CStr(tokens[k])) &&
              forall j | from <= j < k :: !ValidField(CStr(tokens[j]))
    decreases |tokens| - from
  {
    if from < |tokens| && !ValidField(CStr(tokens[from])) {
      FirstValidIsFirst(tokens, from + 1, k);
    }
  }

  /** FirstValid finds nothing exactly when no token from `from` on is accepted. */
  lemma {:induction false} FirstValidNone(tokens: seq<seq<char>>, from: nat)
    requires from <= |tokens|
    ensures FirstValid(tokens, from) == None <==>
              forall j | from <= j < |tokens| :: !ValidField(CStr(tokens[j]))
    decreases |tokens| - from
  {
    if from < |tokens| && !ValidField(CStr(tokens[from])) {
      FirstValidNone(tokens, from + 1);
    }
  }

  /**
   * A retry loop: while the validity flag is clear, read the next token and
   * run the field check on it, starting at token `from`. It answers the
   * position of the token it accepted, or None when the tokens run out first.
   */
  method PromptUntilValid(tokens: seq<seq<char>>, from: nat) returns (accepted: Option<nat>)
    requires from <= |tokens|
    ensures accepted.Some? ==> from <= accepted.value < |tokens| && ValidField(CStr(tokens[accepted.value]))
    ensures accepted == FirstValid(tokens, from)
  {
    var isValid := false;
    var pos := from;
    while !isValid && pos < |tokens|
      invariant from <= pos <= |tokens|
      invariant isValid ==> from < pos && FirstValid(tokens, from) == Some(pos - 1)
      invariant !isValid ==> FirstValid(tokens, from) == FirstValid(tokens, pos)
      decreases |tokens| - pos
    {
      var token := tokens[pos];
      pos := pos + 1;
      isValid := CheckToken(token);
    }
    accepted := if isValid then Some(pos - 1) else None;
  }

  /** The outcome of `register_user` on the token stream `tokens`. */
  function Register(tokens: seq<seq<char>>): (r: Outcome)
    ensures r.Registered? ==> ValidField(r.username) && ValidField(r.password)
  {
    match FirstValid(tokens, 0)
    case None => InputExhausted
    case Some(u) =>
      match FirstValid(tokens, u + 1)
      case None => InputExhausted
      case Some(p) => Registered(CStr(tokens[u]), CStr(tokens[p]))
  }

  /**
   * `register_user`. The hash of the password is computed and discarded and
   * the success message is printed only when both validity flags are set;
   * the function returns 0 on every path.
   */
  method RegisterUser(tokens: seq<seq<char>>) returns (status: int, outcome: Outcome)
    ensures status == 0
    ensures outcome == Register(tokens)
  {
    var usernameAt := PromptUntilValid(tokens, 0);
    var passwordAt: Option<nat> := None;
    if usernameAt.Some? {
      passwordAt := PromptUntilValid(tokens, usernameAt.value + 1);
    }
    var usernameIsValid, passwordIsValid := usernameAt.Some?, passwordAt.Some?;
    outcome := InputExhausted;
    if usernameIsValid && passwordIsValid {
      outcome := Registered(CStr(tokens[usernameAt.value]), CStr(tokens[passwordAt.value]));
    }
    status := 0;
  }

  /**
   * The username is the first accepted token; the password is the first
   * accepted token after it; every token in between was rejected and re-prompted.
   */
  lemma {:induction false} RegisteredTokens(tokens: seq<seq<char>>, u: nat, p: nat)
    requires u < p < |tokens|
    requires ValidField(CStr(tokens[u])) && forall j | 0 <= j < u :: !ValidField(CStr(tokens[j]))
    requires ValidField(CStr(tokens[p])) && forall j | u < j < p :: !ValidField(CStr(tokens[j]))
    ensures Register(tokens) == Registered(CStr(tokens[u]), CStr(tokens[p]))
  {
    FirstValidIsFirst(tokens, 0, u);
    FirstValidIsFirst(tokens, u + 1, p);
  }

  /** Two accepted tokens in the stream are enough for registration to complete. */
  lemma {:induction false} TwoValidRegisters(tokens: seq<seq<char>>, i: nat, j: nat)
    requires i < j < |tokens|
    requires ValidField(CStr(tokens[i])) && ValidField(CStr(tokens[j]))
    ensures Register(tokens).Registered?
  {
    FirstValidNone(tokens, 0);
    var u := FirstValid(tokens, 0).value;
    FirstValidIsFirst(tokens, 0, u);
    assert u <= i;
    FirstValidNone(tokens, u + 1);
  }

  /** Registration completes exactly when the stream holds at least two accepted tokens. */
  lemma {:induction false} RegisteredIffTwoValid(tokens: seq<seq<char>>)
    ensures Register(tokens).Registered? <==>
              exists i, j | 0 <= i < j < |tokens| :: ValidField(CStr(tokens[i])) && ValidField(CStr(tokens[j]))
  {
    if exists i, j | 0 <= i < j < |tokens| :: ValidField(CStr(tokens[i])) && ValidField(CStr(tokens[j])) {
      var i, j :| 0 <= i < j < |tokens| && ValidField(CStr(tokens[i])) && ValidField(CStr(tokens[j]));
      TwoValidRegisters(tokens, i, j);
    }
    if Register(tokens).Registered? {
      var u := FirstValid(tokens, 0).value;
      var p := FirstValid(tokens, u + 1).value;
      assert u < p;
    }
  }

  /**
   * Any ten-character alphanumeric username is rejected and the prompt repeats,
   * although it announces "max. 10"; the next valid token becomes the username.
   */
  lemma {:induction false} TenCharacterUsernameReprompted(name: seq<char>, user: seq<char>, password: seq<char>)
    requires |name| == 10 && AllAlnum(name)
    requires ValidField(user) && ValidField(password)
    ensures Register([name, user, password]) == Registered(user, password)
  {
    var tokens := [name, user, password];
    CStrOfNulFree(name);
    CStrOfNulFree(user);
    CStrOfNulFree(password);
    RegisteredTokens(tokens, 1, 2);
  }

  /**
   * A NUL inside a token cuts it short: only the characters before it are
   * checked and registered.
   */
  lemma EmbeddedNulTruncates()
    ensures Register(["ab\0cd", "pw"]) == Registered("ab", "pw")
  {
  }

  /**
   * Any nine-character alphanumeric password is registered, although the
   * prompt announces "max. 8".
   */
  lemma NineCharacterPasswordRegistered(user: seq<char>, password: seq<char>)
    requires ValidField(user)
    requires |password| == 9 && AllAlnum(password)
    ensures Register([user, password]) == Registered(user, password)
  {
  }
}
