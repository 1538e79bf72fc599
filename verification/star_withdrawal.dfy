/**
 * `StarManager::get_star_withdrawal_url` as a pipeline of stages: the access
 * check, the dialog checks, the password check, the password proof, and the
 * request itself. The first stage that fails decides the error.
 */
module StarWithdrawal {
  import opened Wrappers
  import opened Dialogs

  datatype Error = Error(code: int, message: string)

  const NotBot := Error(400, "User is not a bot")
  const NotChannel := Error(400, "Chat is not a channel")
  const NotEnoughRights := Error(400, "Not enough rights to withdraw stars")
  const UnallowedChat := Error(400, "Unallowed chat specified")
  const PasswordHashInvalid := Error(400, "PASSWORD_HASH_INVALID")
  const NoChatAccess := Error(400, "Have no access to the chat")

  /**
   * What the user and chat managers answer about the dialog. Each fact is
   * only consulted for the dialog type it belongs to.
   */
  datatype DialogFacts = DialogFacts(userIsBot: bool, isBroadcastChannel: bool, isChannelCreator: bool)

  /** Star revenue can be withdrawn from a bot, or from a broadcast channel by its creator. */
  predicate MayWithdrawFrom(kind: DialogType, facts: DialogFacts)
  {
    || (kind == User && facts.userIsBot)
    || (kind == Channel && facts.isBroadcastChannel && facts.isChannelCreator)
  }

  /** The checks on the dialog type, in the order the source makes them. */
  function DialogCheck(kind: DialogType, facts: DialogFacts): (r: Outcome<Error>)
    ensures r.Pass? <==> MayWithdrawFrom(kind, facts)
    ensures kind == User && !facts.userIsBot ==> r == Fail(NotBot)
    ensures kind == Channel && !facts.isBroadcastChannel ==> r == Fail(NotChannel)
    ensures kind == Channel && facts.isBroadcastChannel && !facts.isChannelCreator ==> r == Fail(NotEnoughRights)
    ensures kind != User && kind != Channel ==> r == Fail(UnallowedChat)
  {
    match kind
    case User =>
      if !facts.userIsBot then Fail(NotBot) else Pass
    case Channel =>
      if !facts.isBroadcastChannel then Fail(NotChannel)
      else if !facts.isChannelCreator then Fail(NotEnoughRights)
      else Pass
    case _ => Fail(UnallowedChat)
  }

  /** A user dialog is judged by the bot flag alone, a channel by its two flags alone, anything else by nothing. */
  lemma DialogCheckReadsOnlyItsFacts(kind: DialogType, f: DialogFacts, g: DialogFacts)
    requires kind == User ==> f.userIsBot == g.userIsBot
    requires kind == Channel ==> f.isBroadcastChannel == g.isBroadcastChannel && f.isChannelCreator == g.isChannelCreator
    ensures DialogCheck(kind, f) == DialogCheck(kind, g)
  {
  }

  /**
   * The synchronous part: the access check result `access` comes first, then
   * the dialog checks, and the empty password is rejected last.
   */
  function ValidateWithdrawal(access: Outcome<Error>, dialog: DialogId, facts: DialogFacts, password: string): (r: Outcome<Error>)
    ensures r.Pass? <==> access.Pass? && MayWithdrawFrom(dialog.kind, facts) && |password| > 0
    ensures access.Fail? ==> r == access
    ensures access.Pass? && !MayWithdrawFrom(dialog.kind, facts) ==> r == DialogCheck(dialog.kind, facts)
    ensures access.Pass? && MayWithdrawFrom(dialog.kind, facts) && password == "" ==> r == Fail(PasswordHashInvalid)
  {
    if access.Fail? then access
    else
      var byDialog := DialogCheck(dialog.kind, facts);
      if byDialog.Fail? then byDialog
      else if password == "" then Fail(PasswordHashInvalid)
      else Pass
  }

  /**
   * An empty password changes the answer only for a request that would
   * otherwise pass: it never hides an access or dialog error.
   */
  lemma EmptyPasswordCheckedLast(access: Outcome<Error>, dialog: DialogId, facts: DialogFacts, password: string)
    requires password != ""
    ensures ValidateWithdrawal(access, dialog, facts, "")
            == if ValidateWithdrawal(access, dialog, facts, password).Pass? then Fail(PasswordHashInvalid)
               else ValidateWithdrawal(access, dialog, facts, password)
  {
  }

  /** The opaque password proof `InputCheckPasswordSRP`. */
  datatype PasswordProof = PasswordProof(data: seq<int>)

  datatype WithdrawalUrlRequest = WithdrawalUrlRequest(dialog: DialogId, starCount: int, proof: PasswordProof)

  /**
   * The whole pipeline up to sending `payments.getStarsRevenueWithdrawalUrl`.
   * The password manager's answer `proof`, the closing state of the client
   * `closing`, and whether a writable input peer exists are its inputs.
   */
  function WithdrawalUrlRequestFor(access: Outcome<Error>, dialog: DialogId, facts: DialogFacts, starCount: int,
                                   password: string, proof: Result<PasswordProof, Error>, closing: Outcome<Error>,
                                   hasInputPeer: bool): (r: Result<WithdrawalUrlRequest, Error>)
    ensures r.Ok? <==> ValidateWithdrawal(access, dialog, facts, password).Pass? && proof.Ok? && closing.Pass? && hasInputPeer
    ensures r.Ok? ==> r.value == WithdrawalUrlRequest(dialog, starCount, proof.value)
    ensures ValidateWithdrawal(access, dialog, facts, password).Fail? ==>
              r == Err(ValidateWithdrawal(access, dialog, facts, password).error)
    ensures ValidateWithdrawal(access, dialog, facts, password).Pass? && proof.Err? ==> r == Err(proof.error)
    ensures ValidateWithdrawal(access, dialog, facts, password).Pass? && proof.Ok? && closing.Fail? ==> r == Err(closing.error)
    ensures ValidateWithdrawal(access, dialog, facts, password).Pass? && proof.Ok? && closing.Pass? && !hasInputPeer ==>
              r == Err(NoChatAccess)
  {
    match ValidateWithdrawal(access, dialog, facts, password)
    case Fail(e) => Err(e)
    case Pass =>
      match proof
      case Err(e) => Err(e)
      case Ok(p) =>
        match closing
        case Fail(e) => Err(e)
        case Pass =>
          if !hasInputPeer then Err(NoChatAccess) else Ok(WithdrawalUrlRequest(dialog, starCount, p))
  }
}
