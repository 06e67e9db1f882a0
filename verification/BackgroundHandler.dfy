/** The commands and the event task code behind the background unseal, each as the steps it takes
    (core/cmd_interface/cmd_background_handler.c, core/cmd_interface/cerberus_protocol_optional_commands.c). */
module BackgroundHandlers {
  import opened Bytes
  import opened Wrappers
  import opened HashEngines
  import opened PcrBanks
  import opened TcgLog
  import opened PcrStores
  import opened UnsealRequest
  import opened CmdBackground
  import Aux = AuxAttestation

  datatype CommandError =
    | MissingInput | UnsupportedRequest | InputTooBig | NoTaskRunning | TaskBusy | BufTooSmall
    | Malformed(request: RequestError) | Failed(code: nat)

  const EVENT_BUFFER_LENGTH: nat := 4096

  /** The low bits of CMD_BACKGROUND_NO_TASK, module 0x30 and code 9. */
  const NO_TASK_CODE: nat := 0x3009

  const PMR_COUNT: nat := 5

  /** The sealing entries, one after another in the request. */
  function SealingEntries(pmrs: seq<byte>): (entries: seq<seq<byte>>)
    requires |pmrs| == PMRS_LENGTH
    ensures Aux.ValidSealing(entries) && |entries| == PMR_COUNT
  {
    seq(PMR_COUNT, i requires 0 <= i < PMR_COUNT => pmrs[64 * i..64 * i + 64])
  }

  /** The HMAC of a request covers the sealing bytes as they were sent. */
  lemma EntriesConcatenate(pmrs: seq<byte>)
    requires |pmrs| == PMRS_LENGTH
    ensures Concat(SealingEntries(pmrs)) == pmrs
  {
    ConcatUpTo(pmrs, PMR_COUNT);
    assert SealingEntries(pmrs)[..PMR_COUNT] == SealingEntries(pmrs) && pmrs[..64 * PMR_COUNT] == pmrs;
  }

  lemma {:induction false} ConcatUpTo(pmrs: seq<byte>, n: nat)
    requires |pmrs| == PMRS_LENGTH && n <= PMR_COUNT
    ensures Concat(SealingEntries(pmrs)[..n]) == pmrs[..64 * n]
  {
    var entries := SealingEntries(pmrs)[..n];
    if n > 0 {
      ConcatUpTo(pmrs, n - 1);
      assert entries[..n - 1] == SealingEntries(pmrs)[..n - 1] && entries[n - 1] == pmrs[64 * (n - 1)..64 * n];
      assert pmrs[..64 * (n - 1)] + pmrs[64 * (n - 1)..64 * n] == pmrs[..64 * n];
    }
  }

  function SeedParam(u: Unseal): nat {
    if u.options % 4 == 1 then u.params % 2 else u.params % 8
  }

  /** An RSA seed with OAEP-SHA1 or OAEP-SHA256 padding, or an ECDH seed: by the request's bytes, not PKCS#1 v1.5, which
      the request check lets through. */
  predicate UsableSeed(u: Unseal) {
    (u.options % 4 == 0 && u.params % 8 in {1, 2}) || u.options % 4 == 1
  }

  /** What a well-formed request asks of the responder. */
  function Asked(u: Unseal): Aux.Request
    requires WellFormed(u)
  {
    Aux.Request(u.seed, u.options % 4, SeedParam(u), u.hmac, u.ciphertext, SealingEntries(u.pmrs))
  }

  /** The request was made by someone who knows the seed's secret, and every PCR it is sealed to has that value. */
  ghost predicate Authentic(h: HashFunction, banks: seq<Bank>, crypto: Aux.Crypto, secret: seq<byte>, u: Unseal)
    requires WellFormed(u) && ValidBanks(banks)
  {
    && u.hmac == crypto.hmac(crypto.kdf(secret, "signing key"), u.ciphertext + u.pmrs)
    && Aux.PolicyHolds(h, banks, SealingEntries(u.pmrs))
  }

  /** What the responder is asked for, as the event task reads it from the event buffer, is what the request says. */
  lemma TaskAsks(u: Unseal, stale: seq<byte>)
    requires WellFormed(u)
    ensures Walkable(Serialize(u) + stale) && |FieldsOf(Serialize(u) + stale).pmrs| == PMRS_LENGTH
    ensures ReadRequest(Serialize(u) + stale) == Asked(u)
    ensures Aux.Acceptable(Asked(u), KEY_LENGTH, true, KEY_LENGTH) <==> UsableSeed(u)
    ensures Aux.ArgumentError(Asked(u), KEY_LENGTH, true, KEY_LENGTH)
            == if UsableSeed(u) then None else Some(Aux.BadSeedParam)
  {
    hide Serialize, Walkable, FieldsOf;
    Layout(u, stale);
  }

  function ReadRequest(mem: seq<byte>): Aux.Request
    requires Walkable(mem) && |FieldsOf(mem).pmrs| == PMRS_LENGTH
  {
    var f := FieldsOf(mem);
    Aux.Request(f.seed, f.seedType, f.seedParam, f.hmac, f.ciphertext, SealingEntries(f.pmrs))
  }

  /** The responder's unseal on the request in the event buffer. */
  method RunUnseal(store: PcrStore, hash: HashEngine, crypto: Aux.Crypto, ghost u: Unseal, mem: seq<byte>,
                   ghost stale: seq<byte>, secret: Option<seq<byte>>)
    returns (key: Result<seq<byte>, Aux.UnsealError>)
    requires WellFormed(u) && mem == Serialize(u) + stale
    requires store.Valid() && hash.active == None
    modifies store.pcrs, hash
    ensures store.Valid() && hash.active == None
    ensures key.Ok? ==>
              && UsableSeed(u) && secret.Some? && Authentic(hash.H, old(store.Banks()), crypto, secret.value, u)
              && key.value == crypto.kdf(secret.value, "encryption key")
    ensures hash.reliable && crypto.reliable && secret.Some? && UsableSeed(u)
            && Authentic(hash.H, old(store.Banks()), crypto, secret.value, u)
            ==> key.Ok?
    ensures !UsableSeed(u) ==> key == Err(Aux.BadSeedParam)
  {
    hide WellFormed, Walkable, FieldsOf, Serialize, SealingEntries, Aux.PolicyHolds, Concat, Aux.ArgumentError,
         Aux.Acceptable, UsableSeed, Aux.ValidSealing, ValidBank, SameButExtended, SeedParam;
    TaskAsks(u, stale);
    RequestShape(u);
    EntriesConcatenate(u.pmrs);
    key := Aux.Unseal(store, hash, crypto, ReadRequest(mem), secret, KEY_LENGTH, true, KEY_LENGTH);
  }

  lemma RequestShape(u: Unseal)
    requires WellFormed(u)
    ensures |u.pmrs| == PMRS_LENGTH
  {
  }

  class BackgroundHandler {
    var task: Task
    var status: nat
    var key: seq<byte>
    const supported: bool

    ghost var writes: seq<nat>
    ghost var succeeded: seq<Success>
    ghost var handedOut: seq<HandOut>

    ghost function View(): State
      reads this
    {
      State(task, status, key, writes, succeeded, handedOut)
    }

    constructor (supported: bool)
      ensures View() == Init() && Inv(View()) && this.supported == supported
    {
      task, status, key := NoTask, NONE_STARTED, seq(KEY_LENGTH, _ => 0);
      this.supported := supported;
      writes, succeeded, handedOut := [], [], [];
    }

    /** event_task_submit_event for an unseal, and what becomes of its result.  `notified` is whether the event task
        knows the handler; `code` is the error it reports otherwise. */
    method UnsealStart(request: seq<byte>, notified: bool, code: nat) returns (error: Option<CommandError>)
      requires Inv(View())
      modifies this
      ensures Inv(View())
      ensures error == None <==>
                request != [] && supported && |request| <= 4096 && old(task) == Idle && notified
      ensures error == None ==> View() == Next(old(View()), Start(request))
      ensures error == Some(NoTaskRunning) ==>
                View() == Next(Next(old(View()), StartRefused(Some(PackStatus(5, 0x3009)))),
                               StoreWrite(|old(writes)|))
      ensures error == Some(Failed(code)) ==>
                View() == Next(Next(old(View()), StartNotNotified(Some(PackStatus(7, code)))),
                               StoreWrite(|old(writes)|))
      ensures error.Some? && error.value in {MissingInput, UnsupportedRequest, InputTooBig, TaskBusy} ==>
                View() == old(View())
      ensures error.Some? ==>
                error.value == (if request == [] then MissingInput else if !supported then UnsupportedRequest
                                else if |request| > 4096 then InputTooBig
                                else if old(task) == NoTask then NoTaskRunning
                                else if old(task) != Idle then TaskBusy else Failed(code))
    {
      hide PackStatus, Inv;
      if request == [] {
        return Some(MissingInput);
      }
      if !supported {
        return Some(UnsupportedRequest);
      }
      if |request| > EVENT_BUFFER_LENGTH {
        return Some(InputTooBig);
      }
      if task == NoTask {
        status := PackStatus(TASK_NOT_RUNNING, NO_TASK_CODE);
        WriteAddedAndStored(writes, status);
        RefusalKeepsInv(old(View()), NO_TASK_CODE);
        return Some(NoTaskRunning);
      }
      if task != Idle {
        return Some(TaskBusy);
      }
      status := RUNNING;
      if !notified {
        status := PackStatus(INTERNAL_ERROR, code);
        WriteAddedAndStored(writes, status);
        FailureKeepsInv(old(View()), code);
        return Some(Failed(code));
      }
      task := Unsealing(request);
      StepKeepsInv(old(View()), Start(request));
      return None;
    }

    /** cmd_background_handler_unseal_result into a buffer with room for `room` bytes. */
    method UnsealResult(out: array<byte>, room: nat) returns (error: Option<CommandError>, length: nat, reported: nat)
      requires room <= out.Length && Inv(View())
      modifies this, out
      ensures Inv(View())
      ensures error == Some(UnsupportedRequest) <==> !supported
      ensures !supported ==> View() == old(View())
      ensures supported ==> View() == Next(old(View()), Query(room)) && reported == old(status)
      ensures supported ==> (error == Some(BufTooSmall) <==> old(status) == SUCCESS && room < KEY_LENGTH)
      ensures error == None && old(status) == SUCCESS ==>
                length == KEY_LENGTH <= room && out[..] == Splice(old(out[..]), 0, old(key))
      ensures error == None && old(status) != SUCCESS ==> length == 0
      ensures error.Some? ==> length == room && error.value in {UnsupportedRequest, BufTooSmall}
      ensures error.Some? || old(status) != SUCCESS ==> out[..] == old(out[..])
    {
      hide HandedOutOk, ErrorStatus;
      StepKeepsInv(View(), Query(room));
      if !supported {
        return Some(UnsupportedRequest), room, 0;
      }
      error, length, reported := None, room, status;
      if status == SUCCESS {
        if room < KEY_LENGTH {
          error := Some(BufTooSmall);
        } else {
          CopyInto(out, 0, key);
          length := KEY_LENGTH;
          handedOut := handedOut + [HandOut(key, |succeeded|)];
          status := NONE_STARTED;
        }
      } else {
        length := 0;
      }
    }

    /** cerberus_protocol_unseal_message on the first `length` bytes of the message buffer. */
    method UnsealMessage(mem: seq<byte>, length: nat, notified: bool, code: nat)
      returns (error: Option<CommandError>, responseLength: nat, cryptoTimeout: bool)
      requires length < |mem| && Inv(View())
      modifies this
      ensures Inv(View())
      ensures cryptoTimeout
      ensures error.Some? && error.value.Malformed? <==> !exists u :: WellFormed(u) && mem[..length] == Serialize(u)
      ensures error.Some? && error.value.Malformed? ==> View() == old(View()) && responseLength == length
      ensures !(error.Some? && error.value.Malformed?) ==> responseLength == 0
      ensures error == None ==>
                && View() == Next(old(View()), Start(mem[..length])) && old(task) == Idle
                && Check(mem, length) == None && WellFormed(Parsed(mem, length))
                && task == Unsealing(Serialize(Parsed(mem, length)))
    {
      hide Check, WellFormed, Serialize, Parsed, Inv;
      cryptoTimeout := true;
      CheckIsTheGrammar(mem, length);
      var bad := Check(mem, length);
      if bad.Some? {
        return Some(Malformed(bad.value)), length, true;
      }
      ParsedIsTheMessage(mem, length);
      error := UnsealStart(mem[..length], notified, code);
      responseLength := 0;
    }

    /** The event task runs an accepted request from the event buffer, in which `stale` follows it.  `secret` is what
        the seed gives, or None; `scribble` what a failing derivation leaves in the key buffer. */
    method ExecuteUnseal(store: PcrStore, hash: HashEngine, crypto: Aux.Crypto, ghost u: Unseal, stale: seq<byte>,
                         secret: Option<seq<byte>>, scribble: seq<byte>, code: nat)
      returns (ghost result: Result<seq<byte>, nat>)
      requires Inv(View()) && task.Unsealing? && WellFormed(u) && task.request == Serialize(u)
      requires store.Valid() && hash.active == None && |scribble| == KEY_LENGTH
      requires forall s: seq<byte>, purpose: string :: |crypto.kdf(s, purpose)| == KEY_LENGTH
      modifies this, store.pcrs, hash
      ensures Inv(View())
      ensures View() == Next(Next(Next(old(View()), WriteKey(key)), Return(result)), StoreStatus)
      ensures result.Ok? ==>
                && UsableSeed(u) && secret.Some? && Authentic(hash.H, old(store.Banks()), crypto, secret.value, u)
                && status == SUCCESS && key == result.value == crypto.kdf(secret.value, "encryption key")
      ensures result.Err? ==> status != SUCCESS && status % 256 == FAILURE
      ensures hash.reliable && crypto.reliable && secret.Some? && UsableSeed(u)
              && Authentic(hash.H, old(store.Banks()), crypto, secret.value, u)
              ==> result.Ok?
      ensures store.Valid() && hash.active == None
    {
      hide WellFormed, Serialize, Authentic, ValidBank, ValidBanks, Next, Inv;
      var unsealed := RunUnseal(store, hash, crypto, u, task.request + stale, stale, secret);
      var stored := if unsealed.Ok? then Ok(unsealed.value) else Err(code);
      result := stored;
      StoreResult(stored, scribble);
    }

    /** The end of an execution: the key buffer as the unseal left it, then the status. */
    method StoreResult(result: Result<seq<byte>, nat>, scribble: seq<byte>)
      requires Inv(View()) && task.Unsealing?
      requires |scribble| == KEY_LENGTH && (result.Ok? ==> |result.value| == KEY_LENGTH)
      modifies this
      ensures Inv(View())
      ensures View() == Next(Next(Next(old(View()), WriteKey(key)), Return(result)), StoreStatus)
      ensures result.Ok? ==> status == SUCCESS && key == result.value
      ensures result.Err? ==> status != SUCCESS && status % 256 == FAILURE && key == scribble
    {
      hide PackStatus, Inv;
      ExecutionKeepsInv(View(), if result.Ok? then result.value else scribble, result);
      match result
      case Ok(k) =>
        key, status := k, SUCCESS;
        succeeded := succeeded + [Success(task.request, key)];
        task := OtherEvent;
      case Err(code) =>
        PackedErrorIsNotSuccess(FAILURE, code);
        key, status := scribble, PackStatus(FAILURE, code);
        task := OtherEvent;
    }
  }

  lemma RefusalKeepsInv(s: State, code: nat)
    requires Inv(s)
    ensures var w := PackStatus(TASK_NOT_RUNNING, code);
            Inv(Next(Next(s, StartRefused(Some(w))), StoreWrite(|s.writes|)))
  {
    hide Inv, PackStatus;
    var step := StartRefused(Some(PackStatus(TASK_NOT_RUNNING, code)));
    StepKeepsInv(s, step);
    StepKeepsInv(Next(s, step), StoreWrite(|s.writes|));
  }

  lemma FailureKeepsInv(s: State, code: nat)
    requires Inv(s) && s.task == Idle
    ensures var w := PackStatus(INTERNAL_ERROR, code);
            Inv(Next(Next(s, StartNotNotified(Some(w))), StoreWrite(|s.writes|)))
  {
    hide Inv, PackStatus;
    var step := StartNotNotified(Some(PackStatus(INTERNAL_ERROR, code)));
    StepKeepsInv(s, step);
    StepKeepsInv(Next(s, step), StoreWrite(|s.writes|));
  }

  lemma ExecutionKeepsInv(s: State, bytes: seq<byte>, result: Result<seq<byte>, nat>)
    requires Inv(s) && s.task.Unsealing? && |bytes| == KEY_LENGTH
    requires result.Ok? ==> |result.value| == KEY_LENGTH
    ensures Inv(Next(Next(Next(s, WriteKey(bytes)), Return(result)), StoreStatus))
  {
    hide Inv, PackStatus;
    StepKeepsInv(s, WriteKey(bytes));
    StepKeepsInv(Next(s, WriteKey(bytes)), Return(result));
    StepKeepsInv(Next(Next(s, WriteKey(bytes)), Return(result)), StoreStatus);
  }

  lemma WriteAddedAndStored(writes: seq<nat>, w: nat)
    ensures var all := writes + [w];
            all[|writes|] == w && all[..|writes|] + all[|writes| + 1..] == writes
  {
  }
}
