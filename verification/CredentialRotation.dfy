/**
 How a declared account gets its password: three stores, the account, the Secret and
 the status of the resource, each of which can fail while a pass moves them along.
 */
module CredentialRotation {
  import opened Wrappers
  import opened Merge
  import opened UserStore
  import opened UserSync
  import G = PasswordGeneration

  datatype CredentialSpec = CredentialSpec(generate: bool, temporary: bool, rotationToken: string)

  // ----- one pass, as a function -----

  datatype AccountState = Absent | Existing(password: Option<string>)

  /** The account with its password, the Secret's value, and the recorded token. */
  datatype Stores = Stores(account: AccountState, secret: string, token: string)

  /** How far a pass got before a call failed; requests that report a failure may have taken effect. */
  datatype Progress = Nothing | AccountWritten | SecretWritten | StatusWritten

  datatype Step = Step(spec: Option<CredentialSpec>, progress: Progress, generated: string)

  /** Token `t` asks for a rotation when `recorded` is in the status. */
  predicate Asks(recorded: string, t: string) { t != "" && recorded != "" && t != recorded }

  predicate Rotates(s: Stores, spec: CredentialSpec) { Asks(s.token, spec.rotationToken) }

  /** A new password is generated, unless the Secret's is to be used. */
  predicate Generates(s: Stores, spec: CredentialSpec) {
    spec.generate && (s.secret == "" || Rotates(s, spec))
  }

  function AfterPass(s: Stores, step: Step): Stores {
    if step.progress.Nothing? then s
    else if step.spec.None? then
      if s.account.Absent? then s.(account := Existing(None)) else s
    else if !step.spec.value.generate && s.secret == "" then s
    else
      var spec := step.spec.value;
      var password := if Generates(s, spec) then step.generated else s.secret;
      var written := s.account.Absent? || Rotates(s, spec);
      var account := if written then Existing(Some(password)) else s.account;
      var secret := if Generates(s, spec) && written then password else s.secret;
      if step.progress.AccountWritten? then s.(account := account)
      else if step.progress.SecretWritten? then s.(account := account, secret := secret)
      else Stores(account, secret, spec.rotationToken)
  }

  function AfterPasses(s: Stores, steps: seq<Step>): Stores {
    if steps == [] then s else AfterPass(AfterPasses(s, steps[..|steps| - 1]), steps[|steps| - 1])
  }

  // ----- agreement -----

  /** The Secret holds the account's password. */
  predicate Agrees(s: Stores) { s.account == Existing(Some(s.secret)) }

  /** Nothing is wrong: no account yet, or agreement, or a rotation that will bring them together. */
  predicate Fine(s: Stores, spec: CredentialSpec) { s.account.Absent? || Agrees(s) || Rotates(s, spec) }

  /** The Secret already has what the account has, or will get. */
  predicate Settled(s: Stores) { Agrees(s) || (s.account.Absent? && s.secret != "") }

  predicate StepOf(step: Step, spec: CredentialSpec) { step.spec == Some(spec) && step.generated != "" }

  /** The passes of a fixed declaration. */
  predicate FixedSpec(steps: seq<Step>, spec: CredentialSpec) {
    forall i :: 0 <= i < |steps| ==> StepOf(steps[i], spec)
  }

  /** One pass, failing anywhere, leaves things settled, or the rotation that it found due. */
  lemma PassKeepsSettled(s: Stores, spec: CredentialSpec, step: Step)
    requires spec.generate && StepOf(step, spec) && (Settled(s) || Rotates(s, spec))
    ensures var t := AfterPass(s, step); Settled(t) || (Rotates(s, spec) && t.token == s.token)
  {
  }

  lemma TokenAfter(s: Stores, step: Step)
    requires step.spec.Some?
    ensures AfterPass(s, step).token in {s.token, step.spec.value.rotationToken}
  {
  }

  lemma {:induction false} SettledStays(s: Stores, spec: CredentialSpec, steps: seq<Step>)
    requires spec.generate && FixedSpec(steps, spec) && (Settled(s) || Rotates(s, spec))
    ensures var t := AfterPasses(s, steps); Settled(t) || Rotates(t, spec)
  {
    if steps != [] {
      SettledStays(s, spec, steps[..|steps| - 1]);
      PassKeepsSettled(AfterPasses(s, steps[..|steps| - 1]), spec, steps[|steps| - 1]);
    }
  }

  lemma {:induction false} FineStays(s: Stores, spec: CredentialSpec, steps: seq<Step>)
    requires !spec.generate && FixedSpec(steps, spec) && Fine(s, spec)
    ensures Fine(AfterPasses(s, steps), spec)
  {
    if steps != [] {
      FineStays(s, spec, steps[..|steps| - 1]);
    }
  }

  lemma OnePass(s: Stores, step: Step)
    ensures AfterPasses(s, [step]) == AfterPass(s, step)
  {
    assert [step][..0] == [];
  }

  /**
   With a fixed declaration, the Secret agrees with the account after any number of
   passes that fail anywhere, unless there is no account or a rotation is due, if and
   only if that holds at first, and an account that is still to be created with a
   generated password finds a value in the Secret or a rotation due.
   */
  lemma AgreementIsKeptExactly(s: Stores, spec: CredentialSpec)
    ensures (forall steps :: FixedSpec(steps, spec) ==> Fine(AfterPasses(s, steps), spec))
            <==> Fine(s, spec) && (spec.generate && s.account.Absent? && s.secret == "" ==> Rotates(s, spec))
  {
    if Fine(s, spec) && (spec.generate && s.account.Absent? && s.secret == "" ==> Rotates(s, spec)) {
      forall steps | FixedSpec(steps, spec)
        ensures Fine(AfterPasses(s, steps), spec)
      {
        if spec.generate {
          SettledStays(s, spec, steps);
        } else {
          FineStays(s, spec, steps);
        }
      }
    } else {
      var fails := Step(Some(spec), AccountWritten, "p");
      OnePass(s, fails);
      assert FixedSpec([], spec) && AfterPasses(s, []) == s;
      assert FixedSpec([fails], spec) && (!Fine(s, spec) || !Fine(AfterPass(s, fails), spec));
    }
  }

  // ----- tokens that change -----

  /** The passes of declarations that may differ from pass to pass. */
  predicate Matching(steps: seq<Step>, specs: seq<CredentialSpec>) {
    |steps| == |specs| && forall i :: 0 <= i < |specs| ==> StepOf(steps[i], specs[i])
  }

  /** After every pass of every run over these declarations nothing is wrong. */
  ghost predicate AlwaysFine(s: Stores, specs: seq<CredentialSpec>) {
    forall steps, n :: Matching(steps, specs) && 0 <= n < |specs| ==> FineAt(s, specs, steps, n)
  }

  predicate FineAt(s: Stores, specs: seq<CredentialSpec>, steps: seq<Step>, n: nat)
    requires n < |specs| == |steps|
  {
    Fine(AfterPasses(s, steps[..n + 1]), specs[n])
  }

  /** Once a token asked for a rotation of `recorded`, so do all later ones. */
  predicate KeepsAsking(recorded: string, specs: seq<CredentialSpec>, from: nat) {
    forall j, i :: from <= j < i < |specs| && Asks(recorded, specs[j].rotationToken) ==>
      Asks(recorded, specs[i].rotationToken)
  }

  /**
   No token that may be recorded, at first or by an earlier pass, is asked for again,
   or dropped, after a different one was asked for.
   */
  predicate NeverTakenBack(recorded: string, specs: seq<CredentialSpec>) {
    KeepsAsking(recorded, specs, 0)
    && forall k :: 0 <= k < |specs| ==> KeepsAsking(specs[k].rotationToken, specs, k + 1)
  }

  /** From the n-th on every token asks for a rotation of `recorded`. */
  predicate AskedFrom(recorded: string, specs: seq<CredentialSpec>, n: int) {
    forall i :: 0 <= i < |specs| && n <= i ==> Asks(recorded, specs[i].rotationToken)
  }

  /** A token that a pass before the n-th may have left in the status. */
  predicate MayBeRecorded(first: string, specs: seq<CredentialSpec>, n: nat, t: string) {
    t == first || exists k :: 0 <= k < n && k < |specs| && specs[k].rotationToken == t
  }

  predicate AllGenerate(specs: seq<CredentialSpec>) { forall i :: 0 <= i < |specs| ==> specs[i].generate }

  lemma LaterAskToo(first: string, specs: seq<CredentialSpec>, n: nat, t: string)
    requires NeverTakenBack(first, specs) && n < |specs| && MayBeRecorded(first, specs, n, t)
    requires Asks(t, specs[n].rotationToken)
    ensures AskedFrom(t, specs, n)
  {
    if t != first {
      var k :| 0 <= k < n && specs[k].rotationToken == t;
      assert KeepsAsking(specs[k].rotationToken, specs, k + 1);
    }
  }

  /** Things are settled after n passes, or every later token still asks for the rotation that is due. */
  lemma {:induction false} RunStaysSettled(s: Stores, specs: seq<CredentialSpec>, steps: seq<Step>, n: nat)
    requires Matching(steps, specs) && AllGenerate(specs) && n <= |specs|
    requires NeverTakenBack(s.token, specs) && (Settled(s) || AskedFrom(s.token, specs, 0))
    ensures var t := AfterPasses(s, steps[..n]);
            MayBeRecorded(s.token, specs, n, t.token) && (Settled(t) || AskedFrom(t.token, specs, n - 1))
  {
    hide Settled, Asks, NeverTakenBack, AfterPass;
    if n > 0 {
      RunStaysSettled(s, specs, steps, n - 1);
      var t := AfterPasses(s, steps[..n - 1]);
      assert steps[..n][..n - 1] == steps[..n - 1];
      TokenAfter(t, steps[n - 1]);
      PassKeepsSettled(t, specs[n - 1], steps[n - 1]);
      if Rotates(t, specs[n - 1]) {
        LaterAskToo(s.token, specs, n - 1, t.token);
      }
    } else {
      assert steps[..0] == [];
    }
  }

  /** A run in which only pass k, if any, runs to its end, and pass j fails once the account was written. */
  function Interrupted(specs: seq<CredentialSpec>, k: int, j: int, password: string): (steps: seq<Step>)
    requires password != ""
    ensures Matching(steps, specs)
  {
    seq(|specs|, i requires 0 <= i < |specs| =>
      if i == j then Step(Some(specs[i]), AccountWritten, password)
      else if i == k then Step(Some(specs[i]), StatusWritten, "p")
      else Step(Some(specs[i]), Nothing, "p"))
  }

  lemma {:induction false} IdleRun(s: Stores, steps: seq<Step>, a: nat, b: nat)
    requires a <= b <= |steps| && forall i :: a <= i < b ==> steps[i].progress.Nothing?
    ensures AfterPasses(s, steps[..b]) == AfterPasses(s, steps[..a])
  {
    if a < b {
      IdleRun(s, steps, a, b - 1);
      assert steps[..b][..b - 1] == steps[..b - 1];
    }
  }

  lemma LastOfRun(s: Stores, steps: seq<Step>, n: nat)
    requires n < |steps|
    ensures AfterPasses(s, steps[..n + 1]) == AfterPass(AfterPasses(s, steps[..n]), steps[n])
  {
    assert steps[..n + 1][..n] == steps[..n];
  }

  /** What is not settled goes wrong at the first token that asks for no rotation. */
  lemma UnsettledGoesWrong(s: Stores, specs: seq<CredentialSpec>, j: nat)
    requires AllGenerate(specs) && j < |specs| && !Settled(s) && !Asks(s.token, specs[j].rotationToken)
    ensures !AlwaysFine(s, specs)
  {
    var steps := Interrupted(specs, -1, j, "p");
    IdleRun(s, steps, 0, j);
    assert steps[..0] == [];
    LastOfRun(s, steps, j);
    assert !FineAt(s, specs, steps, j);
  }

  /** Up to pass j the run only records the token of pass k. */
  lemma BeforeReset(s: Stores, specs: seq<CredentialSpec>, k: int, j: nat, password: string)
    requires AllGenerate(specs) && -1 <= k < j < |specs| && password != ""
    ensures var t := AfterPasses(s, Interrupted(specs, k, j, password)[..j]);
            && t.token == (if k < 0 then s.token else specs[k].rotationToken)
            && (t.secret == s.secret || t.secret == "p")
  {
    var steps := Interrupted(specs, k, j, password);
    assert steps[..0] == [];
    if k < 0 {
      IdleRun(s, steps, 0, j);
    } else {
      IdleRun(s, steps, 0, k);
      LastOfRun(s, steps, k);
      IdleRun(s, steps, k + 1, j);
    }
  }

  lemma ResetIsWrong(t: Stores, spec: CredentialSpec, later: CredentialSpec, password: string)
    requires spec.generate && Rotates(t, spec) && !Rotates(t, later) && password != t.secret
    ensures !Fine(AfterPass(t, Step(Some(spec), AccountWritten, password)), later)
  {
  }

  /** The password reset by pass j is never stored when pass i takes the token back that is still recorded. */
  lemma TakenBackGoesWrong(s: Stores, specs: seq<CredentialSpec>, k: int, j: nat, i: nat)
    requires AllGenerate(specs) && -1 <= k < j < i < |specs|
    requires var recorded := if k < 0 then s.token else specs[k].rotationToken;
             Asks(recorded, specs[j].rotationToken) && !Asks(recorded, specs[i].rotationToken)
    ensures !AlwaysFine(s, specs)
  {
    hide Asks, Fine, AfterPass, AfterPasses;
    var password := "pp" + s.secret;
    var steps := Interrupted(specs, k, j, password);
    var t := AfterPasses(s, steps[..j]);
    BeforeReset(s, specs, k, j, password);
    assert password != t.secret;
    LastOfRun(s, steps, j);
    IdleRun(s, steps, j + 1, i + 1);
    ResetIsWrong(t, specs[j], specs[i], password);
    assert !FineAt(s, specs, steps, i);
  }

  /**
   With tokens that change between passes, nothing is ever wrong, whatever fails, if
   and only if no token that may be recorded is taken back and, unless things are
   settled at first, every token asks for a rotation of the one recorded then.
   */
  lemma ChangingTokensExactly(s: Stores, specs: seq<CredentialSpec>)
    requires AllGenerate(specs)
    ensures AlwaysFine(s, specs) <==>
              NeverTakenBack(s.token, specs) && (Settled(s) || AskedFrom(s.token, specs, 0))
  {
    hide Settled, Asks;
    if NeverTakenBack(s.token, specs) && (Settled(s) || AskedFrom(s.token, specs, 0)) {
      forall steps, n | Matching(steps, specs) && 0 <= n < |specs|
        ensures FineAt(s, specs, steps, n)
      {
        RunStaysSettled(s, specs, steps, n + 1);
        SettledIsFine(AfterPasses(s, steps[..n + 1]), specs[n]);
      }
    } else if !Settled(s) && !AskedFrom(s.token, specs, 0) {
      var j :| 0 <= j < |specs| && !Asks(s.token, specs[j].rotationToken);
      UnsettledGoesWrong(s, specs, j);
    } else if !KeepsAsking(s.token, specs, 0) {
      var j, i :| 0 <= j < i < |specs| && Asks(s.token, specs[j].rotationToken)
                  && !Asks(s.token, specs[i].rotationToken);
      TakenBackGoesWrong(s, specs, -1, j, i);
    } else {
      var k :| 0 <= k < |specs| && !KeepsAsking(specs[k].rotationToken, specs, k + 1);
      var j, i :| k < j < i < |specs| && Asks(specs[k].rotationToken, specs[j].rotationToken)
                  && !Asks(specs[k].rotationToken, specs[i].rotationToken);
      TakenBackGoesWrong(s, specs, k, j, i);
    }
  }

  lemma SettledIsFine(s: Stores, spec: CredentialSpec)
    requires Settled(s) || Rotates(s, spec)
    ensures Fine(s, spec)
  {
  }

  /** Tokens that change only to one never used before are never taken back. */
  lemma FreshTokensAreKept(first: string, specs: seq<CredentialSpec>)
    requires forall i :: 0 <= i < |specs| ==> FreshToken(first, specs[..i], specs[i])
    ensures NeverTakenBack(first, specs)
  {
    forall i | 0 <= i < |specs|
      ensures specs[i].rotationToken != "" && specs[i].rotationToken != first
      ensures forall k, j :: 0 <= k < j < i && specs[k].rotationToken != specs[j].rotationToken ==>
                specs[k].rotationToken != specs[i].rotationToken
    {
      FreshTokensDiffer(first, specs, i);
    }
  }

  predicate FreshToken(first: string, earlier: seq<CredentialSpec>, spec: CredentialSpec) {
    (earlier != [] && spec.rotationToken == earlier[|earlier| - 1].rotationToken)
    || (spec.rotationToken != "" && spec.rotationToken != first
        && forall e :: e in earlier ==> e.rotationToken != spec.rotationToken)
  }

  lemma {:induction false} FreshTokensDiffer(first: string, specs: seq<CredentialSpec>, i: nat)
    requires i < |specs| && forall n :: 0 <= n < |specs| ==> FreshToken(first, specs[..n], specs[n])
    ensures specs[i].rotationToken != "" && specs[i].rotationToken != first
    ensures forall k, j :: 0 <= k < j <= i && specs[k].rotationToken != specs[j].rotationToken ==>
              specs[k].rotationToken != specs[i].rotationToken
  {
    assert FreshToken(first, specs[..i], specs[i]);
    if i > 0 {
      FreshTokensDiffer(first, specs, i - 1);
    }
    assert forall k :: 0 <= k < i ==> specs[..i][k] == specs[k];
  }

  /**
   A pass that ran to its end leaves agreement exactly when the account was absent, or
   was rotated, or agreed before.
   */
  lemma CompletePassAgreesExactly(s: Stores, spec: CredentialSpec, step: Step)
    requires step.spec == Some(spec) && (step.progress.SecretWritten? || step.progress.StatusWritten?)
    requires spec.generate || s.secret != ""
    ensures Agrees(AfterPass(s, step)) <==> s.account.Absent? || Rotates(s, spec) || Agrees(s)
  {
  }

  /** The Secret changes only to a generated value that is the account's password by then. */
  lemma StoredIsAccepted(s: Stores, step: Step)
    requires AfterPass(s, step).secret != s.secret
    ensures AfterPass(s, step).account == Existing(Some(AfterPass(s, step).secret))
            && AfterPass(s, step).secret == step.generated
  {
  }

  /** Once the account exists without its password in the Secret, only a rotation brings them together. */
  lemma {:induction false} ForgottenPasswordStays(s: Stores, spec: CredentialSpec, steps: seq<Step>)
    requires spec.generate && FixedSpec(steps, spec)
    requires s.account.Existing? && s.secret == "" && s.account.password != Some("")
             && (s.token == spec.rotationToken || s.token == "")
    ensures var t := AfterPasses(s, steps); !Agrees(t) && t.account == s.account && t.secret == ""
    ensures var t := AfterPasses(s, steps); t.token == spec.rotationToken || t.token == ""
  {
    if steps != [] {
      ForgottenPasswordStays(s, spec, steps[..|steps| - 1]);
    }
  }

  /**
   How that happens: the very first pass creates the account and then fails before
   the Secret is written. Without a Secret, and with no rotation due, agreement is
   therefore not kept.
   */
  lemma FailedFirstCreation(p: string, q: string)
    requires p != "" && q != ""
    ensures var spec := CredentialSpec(true, false, "");
            var steps := [Step(Some(spec), AccountWritten, p), Step(Some(spec), StatusWritten, q)];
            AfterPasses(Stores(Absent, "", ""), steps) == Stores(Existing(Some(p)), "", "")
  {
    var spec := CredentialSpec(true, false, "");
    var first, second := Step(Some(spec), AccountWritten, p), Step(Some(spec), StatusWritten, q);
    assert [first, second][..1] == [first] && [first][..0] == [];
    assert AfterPasses(Stores(Absent, "", ""), [first]) == Stores(Existing(Some(p)), "", "");
  }

  /** Why a token must not be taken back: the password reset meanwhile is never stored. */
  lemma WithdrawnRotation(p: string, q: string)
    requires p != "" && q != "" && p != q
    ensures var rotating, withdrawn := CredentialSpec(true, false, "2"), CredentialSpec(true, false, "1");
            var steps := [Step(Some(rotating), AccountWritten, q), Step(Some(withdrawn), StatusWritten, q)];
            AfterPasses(Stores(Existing(Some(p)), p, "1"), steps) == Stores(Existing(Some(q)), p, "1")
  {
    var rotating, withdrawn := CredentialSpec(true, false, "2"), CredentialSpec(true, false, "1");
    var first, second := Step(Some(rotating), AccountWritten, q), Step(Some(withdrawn), StatusWritten, q);
    var s := Stores(Existing(Some(p)), p, "1");
    assert [first, second][..1] == [first] && [first][..0] == [];
    assert "2" != "1" by { assert "2"[0] != "1"[0]; }
    assert AfterPasses(s, [first]) == Stores(Existing(Some(q)), p, "1");
  }

  // ----- the controller -----

  datatype PassResult = Ready | Failed

  class Controller {
    const account: Account
    /** The value in the referenced Secret; empty when there is none. */
    var secret: string
    /** The rotation token recorded in the status. */
    var token: string
    /** No request fails, and the random source works. */
    const reliable: bool

    constructor (account: Account, secret: string, token: string, reliable: bool)
      ensures this.account == account && this.secret == secret && this.token == token && this.reliable == reliable
    {
      this.account, this.secret, this.token, this.reliable := account, secret, token, reliable;
    }

    ghost function State(): Stores
      reads this, account
    {
      Stores(if account.live.None? then Absent else Existing(account.password), secret, token)
    }

    /** A token is declared and one was recorded before, and the two differ. */
    static predicate RotationAsked(recorded: string, spec: Option<CredentialSpec>) {
      spec.Some? && spec.value.rotationToken != "" && recorded != "" && recorded != spec.value.rotationToken
    }

    method StoredPassword() returns (ok: bool, stored: string)
      ensures ok ==> stored == secret
      ensures reliable ==> ok
    {
      ok := Attempt(reliable);
      stored := secret;
    }

    /** A failing write of the Secret may have taken effect. */
    method StorePassword(password: string) returns (ok: bool)
      modifies this`secret
      ensures secret == password || (!ok && secret == old(secret))
      ensures reliable ==> ok
    {
      var arrives := Attempt(reliable);
      if !arrives {
        return false;
      }
      secret := password;
      ok := Attempt(reliable);
    }

    /** A failing status update is only logged. */
    method SetStatus(recorded: string)
      modifies this`token
      ensures token == recorded || (token == old(token) && !reliable)
    {
      var arrives := Attempt(reliable);
      if arrives {
        token := recorded;
      }
    }

    /** A password can be had: generated under the realm's policy, or read from the Secret. */
    ghost predicate Resolvable(spec: Option<CredentialSpec>, policy: G.Policy)
      reads this
    {
      spec.Some? ==>
        if spec.value.generate then !(0 < policy.maxLength < G.Needed(policy)) else secret != ""
    }

    /** The password to apply, and whether it was generated and still has to be stored. */
    method ResolveCredential(spec: Option<CredentialSpec>, policy: G.Policy)
      returns (ok: bool, credential: Credential, generated: bool)
      ensures ok && spec.None? ==> credential == Credential("", false, false) && !generated
      ensures ok && spec.Some? ==>
                && (credential.rotate <==>
                      spec.value.rotationToken != "" && token != "" && spec.value.rotationToken != token)
                && credential.temporary == spec.value.temporary && credential.password != ""
                && (generated <==> spec.value.generate && (secret == "" || credential.rotate))
                && (!generated ==> credential.password == secret)
      ensures reliable && Resolvable(spec, policy) ==> ok
    {
      if spec.None? {
        return true, Credential("", false, false), false;
      }
      var rotate := spec.value.rotationToken != "" && token != "" && spec.value.rotationToken != token;
      var read, stored := StoredPassword();
      if !read {
        return false, Credential("", false, false), false;
      }
      credential := Credential("", spec.value.temporary, rotate);
      if !spec.value.generate {
        return stored != "", credential.(password := stored), false;
      }
      if stored != "" && !rotate {
        return true, credential.(password := stored), false;
      }
      var known := Attempt(reliable);
      if !known {
        return false, credential, false;
      }
      var password := G.GeneratePassword(policy, reliable);
      if password.Failure? {
        assert password == Failure(password.error);
        assert password.error.Unsatisfiable? || password.error.RandomSource?;
        return false, credential, false;
      }
      return true, credential.(password := password.value), true;
    }

    /**
     One pass. Whatever fails, the three stores end as after a pass with some
     progress; Ready means the password was dealt with to the end. When no request
     fails, a pass that can get a password reaches Ready and records the token.
     */
    method Reconcile(user: UserSpec, spec: Option<CredentialSpec>, policy: G.Policy)
      returns (r: PassResult, ghost step: Step)
      requires account.Valid()
      modifies this, account
      ensures account.Valid() && step.spec == spec && step.generated != ""
      ensures State() == AfterPass(old(State()), step)
      // what may change, and why
      ensures old(account.live).Some? && account.password != old(account.password) ==> RotationAsked(old(token), spec)
      ensures secret != old(secret) ==>
                && spec.Some? && spec.value.generate && account.live.Some? && account.password == Some(secret)
                && (RotationAsked(old(token), spec) || (old(secret) == "" && old(account.live).None?))
      ensures token != old(token) ==> r == Ready && spec.Some? && token == spec.value.rotationToken
      // what a pass that reaches Ready leaves
      ensures r == Ready ==> Applied(account, user)
      ensures r == Ready && spec.Some? && (old(account.live).None? || RotationAsked(old(token), spec)) ==>
                && account.password == Some(secret) && secret != ""
                && (!spec.value.generate || (old(secret) != "" && !RotationAsked(old(token), spec)) ==>
                      secret == old(secret))
      ensures r == Ready && (spec.None? || !(old(account.live).None? || RotationAsked(old(token), spec))) ==>
                && secret == old(secret)
                && account.password == if old(account.live).Some? then old(account.password) else None
      ensures r == Ready ==> step.progress.SecretWritten? || step.progress.StatusWritten?
      ensures r == Ready && spec.Some? ==> spec.value.generate || old(secret) != ""
      ensures reliable && account.reliable && AllDefined(account, user) && old(Resolvable(spec, policy)) ==>
                r == Ready && (spec.Some? ==> token == spec.value.rotationToken)
    {
      hide AllDefined, Within, UserAsDeclared, RestKept, CanonicalGroups, GroupPath, GroupPaths, Names, Resolvable;
      step := Step(spec, Nothing, "generated");
      var ready := Attempt(reliable);
      if !ready {
        return Failed, step;
      }
      var ok, credential, generated := ResolveCredential(spec, policy);
      if !ok {
        SetStatus(token);
        return Failed, step;
      }
      if generated {
        step := step.(generated := credential.password);
      }
      var result := ReconcileUser(account, user, credential);
      var written := account.live.Some? && (old(account.live).None? || account.password != old(account.password));
      step := step.(progress := if written then AccountWritten else Nothing);
      if result.Failure? {
        SetStatus(token);
        return Failed, step;
      }
      if generated && (result.value.passwordSet || result.value.created || credential.rotate) {
        if !result.value.passwordSet {
          return Failed, step;
        }
        step := step.(progress := AccountWritten);
        ok := StorePassword(credential.password);
        if secret == credential.password {
          step := step.(progress := SecretWritten);
        }
        if !ok {
          SetStatus(token);
          return Failed, step;
        }
      }
      step := step.(progress := SecretWritten);
      ghost var before := token;
      SetStatus(if spec.Some? then spec.value.rotationToken else token);
      if token != before {
        step := step.(progress := StatusWritten);
      }
      return Ready, step;
    }
  }

  /**
   A pass for each declaration, with the policy the realm has by then: the run is one of
   the function above. When no token is taken back and things are settled at first,
   or every token asks for the rotation, the Secret holds the account's password in
   the end, unless a rotation is still due.
   */
  method ReconcileRepeatedly(controller: Controller, user: UserSpec, specs: seq<CredentialSpec>,
                             policies: seq<G.Policy>)
    returns (ghost steps: seq<Step>)
    requires controller.account.Valid() && |policies| == |specs|
    modifies controller, controller.account
    ensures controller.account.Valid() && Matching(steps, specs)
    ensures controller.State() == AfterPasses(old(controller.State()), steps)
    ensures specs != [] && AllGenerate(specs) && NeverTakenBack(old(controller.token), specs)
            && (old(Settled(controller.State())) || AskedFrom(old(controller.token), specs, 0))
            && controller.account.live.Some? && !Rotates(controller.State(), specs[|specs| - 1]) ==>
              controller.account.password == Some(controller.secret)
  {
    steps := [];
    for i := 0 to |specs|
      invariant controller.account.Valid() && Matching(steps, specs[..i])
      invariant controller.State() == AfterPasses(old(controller.State()), steps)
    {
      ghost var step;
      var r;
      r, step := controller.Reconcile(user, Some(specs[i]), policies[i]);
      assert (steps + [step])[..i] == steps;
      assert specs[..i + 1] == specs[..i] + [specs[i]];
      steps := steps + [step];
    }
    assert specs[..|specs|] == specs && steps[..|specs|] == steps;
    if AllGenerate(specs) && specs != [] {
      ChangingTokensExactly(old(controller.State()), specs);
      assert AlwaysFine(old(controller.State()), specs) ==>
          FineAt(old(controller.State()), specs, steps, |specs| - 1);
    }
  }
}
