/** The two rewrites the dispatcher applies to a transaction code before
    typing it into a session's command field (main_app.py, launch_sap_transaction). */
module TransactionCode {
  import opened PyText

  /** Command prefix asking the client to run the transaction in a new session. */
  const OpenPrefix := "/o"
  /** Command prefix asking the client to run the transaction in this session. */
  const ExecutePrefix := "/n"

  /** The "open in new session" form: `/n…` becomes `/o…`, `/o…` is kept, and
      anything else loses its leading slashes and gains `/o`. */
  function OpenInNewSession(code: string): (r: string)
    ensures StartsWith(r, OpenPrefix)
  {
    if StartsWith(code, ExecutePrefix) then OpenPrefix + code[2..]
    else if StartsWith(code, OpenPrefix) then code
    else OpenPrefix + LStripChar(code, '/')
  }

  /** The "execute here" form: a code that already starts with `/` (any
      command, `/o…` included) is kept, a bare code gains `/n`. */
  function ExecuteHere(code: string): (r: string)
    ensures StartsWith(r, "/")
    ensures r == code <==> StartsWith(code, "/")
    ensures !StartsWith(code, "/") ==> r == ExecutePrefix + code
  {
    if StartsWith(code, "/") then code else ExecutePrefix + code
  }

  /** What the new-session rewrite does to each kind of code: swaps `/n`
      for `/o`, keeps `/o` codes, and prefixes bare codes. */
  lemma OpenInNewSessionCases(code: string)
    ensures StartsWith(code, "/n") ==> OpenInNewSession(code) == "/o" + code[2..]
    ensures StartsWith(code, "/o") ==> OpenInNewSession(code) == code
    ensures !StartsWith(code, "/") ==> OpenInNewSession(code) == "/o" + code
  {
    if !StartsWith(code, "/") {
      NotLedBy(code, "/", "/n");
      NotLedBy(code, "/", "/o");
      assert code == [] || code[0] != '/' by {
        if code != [] { assert code[..1] == [code[0]]; }
      }
      assert LStripChar(code, '/') == code;
    }
  }

  /** Any other slash-led code keeps what follows its run of leading
      slashes: `//x` and `/x` both become `/ox`. */
  lemma OpenInNewSessionSlashLed(code: string)
    requires StartsWith(code, "/") && !StartsWith(code, "/n") && !StartsWith(code, "/o")
    ensures var r := OpenInNewSession(code);
      var k := |code| - (|r| - 2);
      && 0 < k <= |code|
      && r == "/o" + code[k..]
      && (forall j :: 0 <= j < k ==> code[j] == '/')
      && (k == |code| || code[k] != '/')
  {
    assert code[0] == '/' by { assert code[..1] == "/"; }
  }

  /** A code not led by `p` is not led by any extension of `p`. */
  lemma NotLedBy(s: string, p: string, q: string)
    requires !StartsWith(s, p) && |p| <= |q| && q[..|p|] == p
    ensures !StartsWith(s, q)
  {
  }

  /** Rewriting a code that is already in new-session form changes nothing. */
  lemma OpenInNewSessionIdempotent(code: string)
    ensures OpenInNewSession(OpenInNewSession(code)) == OpenInNewSession(code)
  {
    var r := OpenInNewSession(code);
    assert r[..2] == OpenPrefix;
  }

  /** Applying the execute-here rewrite twice equals applying it once. */
  lemma ExecuteHereIdempotent(code: string)
    ensures ExecuteHere(ExecuteHere(code)) == ExecuteHere(code)
  {
  }

  /** Both rewrites name the same transaction: putting a code in new-session
      form directly or after its execute-here form gives the same command. */
  lemma RewritesAgree(code: string)
    ensures OpenInNewSession(ExecuteHere(code)) == OpenInNewSession(code)
  {
    if !StartsWith(code, "/") {
      var e := ExecutePrefix + code;
      assert StartsWith(e, ExecutePrefix) && e[2..] == code;
      assert code == [] || code[0] != '/' by {
        if code != [] { assert code[..1] == [code[0]]; }
      }
      assert LStripChar(code, '/') == code;
    }
  }

  /** The worked example: `scwm/mon` becomes `/oscwm/mon` for a new session
      and `/nscwm/mon` for an existing one. (The code is a parameter so that
      the verifier does not evaluate the literal eagerly.) */
  lemma BareCodeExample(code: string)
    requires code == "scwm/mon"
    ensures OpenInNewSession(code) == "/oscwm/mon"
    ensures ExecuteHere(code) == "/nscwm/mon"
  {
    assert !StartsWith(code, "/") by { assert code[..1][0] == 's'; }
    OpenInNewSessionCases(code);
  }
}
