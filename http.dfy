/**
  The identity provider's webhook endpoint (`POST /clerk-webhook`): it checks
  the signing secret and the three svix headers, has the svix library verify
  the signature, and for a `user.created` event asks the database to create
  the user. Verification, the database mutation and the clock are outside
  this model and enter as parameters.
 */
module Http {
  import opened Wrappers
  import opened Strings

  /** One entry of the event's `email_addresses`. */
  datatype EmailAddress = EmailAddress(emailAddress: string)

  /** The event's `data`: the fields of the new user the handler reads. */
  datatype UserData = UserData(
    id: string,
    emailAddresses: seq<EmailAddress>,
    firstName: Option<string>,
    lastName: Option<string>,
    imageUrl: string)

  /** A verified webhook event. */
  datatype WebhookEvent = WebhookEvent(eventType: string, data: UserData)

  /** The three svix headers the handler reads: `svix-id`, `svix-signature` and `svix-timestamp`. */
  datatype HeaderName = SvixId | SvixSignature | SvixTimestamp

  /**
    The incoming request: what `request.headers.get` returns for each svix
    header (nothing for null), and the JSON body as re-serialised for
    verification.
   */
  datatype Request = Request(svixId: Option<string>, svixSignature: Option<string>, svixTimestamp: Option<string>, body: string) {
    function Header(name: HeaderName): Option<string> {
      match name
      case SvixId => svixId
      case SvixSignature => svixSignature
      case SvixTimestamp => svixTimestamp
    }
  }

  /** The three svix headers handed to signature verification. */
  datatype SvixHeaders = SvixHeaders(id: string, timestamp: string, signature: string)

  /** The arguments of the `createUser` mutation. */
  datatype NewUser = NewUser(email: Option<string>, name: string, userId: string, createdAt: int, profileImage: string)

  /** The handler's answers. */
  datatype Reply = NoSvixHeaders | VerificationFailed | CreateUserFailed | Processed {
    function Status(): int {
      match this
      case NoSvixHeaders => 400
      case VerificationFailed => 400
      case CreateUserFailed => 500
      case Processed => 200
    }

    function Text(): string {
      match this
      case NoSvixHeaders => "Error occurred -- no svix headers"
      case VerificationFailed => "Error occurred"
      case CreateUserFailed => "Error creating user"
      case Processed => "Webhook processed successfully"
    }
  }

  /** What the handler does with a request: throws for a missing secret, or answers. */
  datatype Outcome = MissingSecret | Response(reply: Reply) {
    function Message(): string
      requires MissingSecret?
    {
      "Missing CLERK_WEBHOOK_SECRET environment variable"
    }
  }

  /** A call the handler makes to the outside world. */
  datatype Effect = ReadHeader(name: HeaderName) | Verify(headers: SvixHeaders) | CreateUser(user: NewUser)

  /** The handler's outcome together with the calls it made, in order. */
  datatype Handled = Handled(outcome: Outcome, effects: seq<Effect>)

  const UserCreated := "user.created"

  /** JavaScript truthiness of a string that may be missing: present and non-empty. */
  predicate Present(h: Option<string>) {
    h.Some? && h.value != ""
  }

  predicate HeadersPresent(req: Request) {
    Present(req.svixId) && Present(req.svixSignature) && Present(req.svixTimestamp)
  }

  /** The headers as handed to verification, once all three are known to be present. */
  function SvixHeadersOf(req: Request): SvixHeaders
    requires HeadersPresent(req)
  {
    SvixHeaders(req.svixId.value, req.svixTimestamp.value, req.svixSignature.value)
  }

  const HeaderReads := [ReadHeader(SvixId), ReadHeader(SvixSignature), ReadHeader(SvixTimestamp)]

  // ----- the user record -----

  /** `email_addresses[0]?.email_address`: the first address, or nothing for an empty list. */
  function PrimaryEmail(addresses: seq<EmailAddress>): (r: Option<string>)
    ensures r.None? <==> addresses == []
    ensures r.Some? ==> r.value == addresses[0].emailAddress
  {
    if addresses == [] then None else Some(addresses[0].emailAddress)
  }

  /** `${first_name || ""} ${last_name || ""}`.trim() */
  function DisplayName(first: Option<string>, last: Option<string>): (r: string)
    ensures Trimmed(r)
  {
    Trim(first.GetOr("") + " " + last.GetOr(""))
  }

  /** The record passed to `createUser` for a new user. */
  function NewUserOf(data: UserData, now: int): (r: NewUser)
    ensures r.userId == data.id && r.createdAt == now && r.profileImage == data.imageUrl
    ensures r.email.None? <==> data.emailAddresses == []
    ensures Trimmed(r.name)
  {
    NewUser(PrimaryEmail(data.emailAddresses), DisplayName(data.firstName, data.lastName), data.id, now, data.imageUrl)
  }

  /** With both parts missing or empty the display name is empty. */
  lemma DisplayNameEmpty(first: Option<string>, last: Option<string>)
    requires first.GetOr("") == "" && last.GetOr("") == ""
    ensures DisplayName(first, last) == ""
  {
    var s := first.GetOr("") + " " + last.GetOr("");
    assert s == " ";
    assert PaddedAt([], s, 0);
    TrimUnique([], s, 0);
  }

  /** Two trimmed, non-empty parts are joined by exactly one space. */
  lemma DisplayNameJoins(first: string, last: string)
    requires first != [] && Trimmed(first)
    requires last != [] && Trimmed(last)
    ensures DisplayName(Some(first), Some(last)) == first + " " + last
  {
    var s := first + " " + last;
    assert s[0] == first[0] && s[|s| - 1] == last[|last| - 1];
    assert PaddedAt(s, s, 0);
    TrimUnique(s, s, 0);
  }

  /** With only the first name, the display name is that (trimmed) first name. */
  lemma DisplayNameFirstOnly(first: string, last: Option<string>)
    requires Trimmed(first)
    requires last.GetOr("") == ""
    ensures DisplayName(Some(first), last) == first
  {
    var s := first + " " + last.GetOr("");
    assert s == first + " ";
    assert s[..|first|] == first;
    assert PaddedAt(first, s, 0);
    TrimUnique(first, s, 0);
  }

  /** With only the last name, the display name is that (trimmed) last name. */
  lemma DisplayNameLastOnly(first: Option<string>, last: string)
    requires first.GetOr("") == ""
    requires Trimmed(last)
    ensures DisplayName(first, Some(last)) == last
  {
    var s := first.GetOr("") + " " + last;
    assert s == " " + last;
    assert s[1..1 + |last|] == last;
    assert PaddedAt(last, s, 1);
    TrimUnique(last, s, 1);
  }

  // ----- the handler -----

  /**
    The handler as a function of its inputs: the environment's secret, the
    request, what signature verification returns for the secret, body and
    headers (nothing when it throws), whether `createUser` succeeds for a
    record, and the clock.
   */
  function Handle(
    secret: Option<string>, req: Request,
    verify: (string, string, SvixHeaders) -> Option<WebhookEvent>,
    createUser: NewUser -> bool, now: int): (r: Handled)
    ensures r.outcome.MissingSecret? <==> !Present(secret)
    ensures r.outcome.MissingSecret? ==> r.effects == []
    ensures !r.outcome.MissingSecret? ==> |r.effects| >= 3 && r.effects[..3] == HeaderReads
  {
    if !Present(secret) then Handled(MissingSecret, [])
    else if !HeadersPresent(req) then Handled(Response(NoSvixHeaders), HeaderReads)
    else
      var headers := SvixHeadersOf(req);
      var checked := HeaderReads + [Verify(headers)];
      match verify(secret.value, req.body, headers)
      case None => Handled(Response(VerificationFailed), checked)
      case Some(evt) =>
        if evt.eventType == UserCreated then
          var user := NewUserOf(evt.data, now);
          Handled(Response(if createUser(user) then Processed else CreateUserFailed), checked + [CreateUser(user)])
        else Handled(Response(Processed), checked)
  }

  /** The number of `createUser` calls among the effects. */
  function CreateUserCalls(effects: seq<Effect>): nat {
    if effects == [] then 0
    else (if effects[0].CreateUser? then 1 else 0) + CreateUserCalls(effects[1..])
  }

  /** The number of signature verifications among the effects. */
  function VerifyCalls(effects: seq<Effect>): nat {
    if effects == [] then 0
    else (if effects[0].Verify? then 1 else 0) + VerifyCalls(effects[1..])
  }

  /** Reading the headers neither verifies nor creates anything; adding the verification verifies once. */
  lemma HeaderReadCounts(headers: SvixHeaders)
    ensures VerifyCalls(HeaderReads) == 0 && CreateUserCalls(HeaderReads) == 0
    ensures VerifyCalls(HeaderReads + [Verify(headers)]) == 1
    ensures CreateUserCalls(HeaderReads + [Verify(headers)]) == 0
  {
    var checked := HeaderReads + [Verify(headers)];
    assert HeaderReads[1..][1..][1..] == [];
    assert VerifyCalls(HeaderReads[1..][1..]) == 0;
    assert CreateUserCalls(HeaderReads[1..][1..]) == 0;
    CountsAppend(HeaderReads, [Verify(headers)]);
    assert [Verify(headers)][1..] == [];
  }

  /** Without a secret the handler throws before it reads any header. */
  lemma MissingSecretThrows(
    secret: Option<string>, req: Request,
    verify: (string, string, SvixHeaders) -> Option<WebhookEvent>, createUser: NewUser -> bool, now: int)
    requires !Present(secret)
    ensures Handle(secret, req, verify, createUser, now) == Handled(MissingSecret, [])
    ensures Handle(secret, req, verify, createUser, now).outcome.Message() == "Missing CLERK_WEBHOOK_SECRET environment variable"
  {
  }

  /** A missing or empty svix header answers 400 after reading the headers, without verifying or creating anything. */
  lemma MissingHeaderRejected(
    secret: Option<string>, req: Request,
    verify: (string, string, SvixHeaders) -> Option<WebhookEvent>, createUser: NewUser -> bool, now: int)
    requires Present(secret) && !HeadersPresent(req)
    ensures Handle(secret, req, verify, createUser, now).outcome == Response(NoSvixHeaders)
    ensures Handle(secret, req, verify, createUser, now).outcome.reply.Status() == 400
    ensures Handle(secret, req, verify, createUser, now).outcome.reply.Text() == "Error occurred -- no svix headers"
    ensures Handle(secret, req, verify, createUser, now).effects == HeaderReads
    ensures VerifyCalls(Handle(secret, req, verify, createUser, now).effects) == 0
    ensures CreateUserCalls(Handle(secret, req, verify, createUser, now).effects) == 0
  {
    HeaderReadCounts(SvixHeaders("", "", ""));
  }

  /** A signature that does not verify answers 400 after one verification, without creating anything. */
  lemma BadSignatureRejected(
    secret: Option<string>, req: Request,
    verify: (string, string, SvixHeaders) -> Option<WebhookEvent>, createUser: NewUser -> bool, now: int)
    requires Present(secret) && HeadersPresent(req)
    requires verify(secret.value, req.body, SvixHeadersOf(req)).None?
    ensures Handle(secret, req, verify, createUser, now).outcome == Response(VerificationFailed)
    ensures Handle(secret, req, verify, createUser, now).outcome.reply.Status() == 400
    ensures Handle(secret, req, verify, createUser, now).outcome.reply.Text() == "Error occurred"
    ensures Handle(secret, req, verify, createUser, now).effects == HeaderReads + [Verify(SvixHeadersOf(req))]
    ensures VerifyCalls(Handle(secret, req, verify, createUser, now).effects) == 1
    ensures CreateUserCalls(Handle(secret, req, verify, createUser, now).effects) == 0
  {
    HeaderReadCounts(SvixHeadersOf(req));
  }

  /** A verified event of another type is acknowledged with 200 and creates nothing. */
  lemma OtherEventIgnored(
    secret: Option<string>, req: Request,
    verify: (string, string, SvixHeaders) -> Option<WebhookEvent>, createUser: NewUser -> bool, now: int)
    requires Present(secret) && HeadersPresent(req)
    requires verify(secret.value, req.body, SvixHeadersOf(req)).Some?
    requires verify(secret.value, req.body, SvixHeadersOf(req)).value.eventType != UserCreated
    ensures Handle(secret, req, verify, createUser, now).outcome == Response(Processed)
    ensures Handle(secret, req, verify, createUser, now).outcome.reply.Status() == 200
    ensures Handle(secret, req, verify, createUser, now).outcome.reply.Text() == "Webhook processed successfully"
    ensures Handle(secret, req, verify, createUser, now).effects == HeaderReads + [Verify(SvixHeadersOf(req))]
    ensures VerifyCalls(Handle(secret, req, verify, createUser, now).effects) == 1
    ensures CreateUserCalls(Handle(secret, req, verify, createUser, now).effects) == 0
  {
    HeaderReadCounts(SvixHeadersOf(req));
  }

  /**
    A verified `user.created` event issues exactly one `createUser`, as the
    last call, with the record derived from the event and the clock; the
    answer is 200 when the mutation succeeds and 500 when it fails.
   */
  lemma UserCreatedProvisions(
    secret: Option<string>, req: Request,
    verify: (string, string, SvixHeaders) -> Option<WebhookEvent>, createUser: NewUser -> bool, now: int,
    evt: WebhookEvent)
    requires Present(secret) && HeadersPresent(req)
    requires verify(secret.value, req.body, SvixHeadersOf(req)) == Some(evt)
    requires evt.eventType == UserCreated
    ensures Handle(secret, req, verify, createUser, now).outcome == Response(if createUser(NewUserOf(evt.data, now)) then Processed else CreateUserFailed)
    ensures Handle(secret, req, verify, createUser, now).outcome.reply.Status() == if createUser(NewUserOf(evt.data, now)) then 200 else 500
    ensures !createUser(NewUserOf(evt.data, now)) ==> Handle(secret, req, verify, createUser, now).outcome.reply.Text() == "Error creating user"
    ensures VerifyCalls(Handle(secret, req, verify, createUser, now).effects) == 1
    ensures CreateUserCalls(Handle(secret, req, verify, createUser, now).effects) == 1
    ensures Last(Handle(secret, req, verify, createUser, now).effects) == CreateUser(NewUserOf(evt.data, now))
  {
    HandleUserCreated(secret, req, verify, createUser, now, evt);
    ProvisionCounts(SvixHeadersOf(req), NewUserOf(evt.data, now));
  }

  /** The calls of a provisioning run: one verification, then one `createUser` as the last call. */
  lemma ProvisionCounts(headers: SvixHeaders, user: NewUser)
    ensures VerifyCalls(HeaderReads + [Verify(headers)] + [CreateUser(user)]) == 1
    ensures CreateUserCalls(HeaderReads + [Verify(headers)] + [CreateUser(user)]) == 1
    ensures Last(HeaderReads + [Verify(headers)] + [CreateUser(user)]) == CreateUser(user)
  {
    HeaderReadCounts(headers);
    CountsAppend(HeaderReads + [Verify(headers)], [CreateUser(user)]);
    assert [CreateUser(user)][1..] == [];
  }

  /** The handler's result for a verified `user.created` event, spelled out. */
  lemma HandleUserCreated(
    secret: Option<string>, req: Request,
    verify: (string, string, SvixHeaders) -> Option<WebhookEvent>, createUser: NewUser -> bool, now: int,
    evt: WebhookEvent)
    requires Present(secret) && HeadersPresent(req)
    requires verify(secret.value, req.body, SvixHeadersOf(req)) == Some(evt)
    requires evt.eventType == UserCreated
    ensures Handle(secret, req, verify, createUser, now) ==
      Handled(Response(if createUser(NewUserOf(evt.data, now)) then Processed else CreateUserFailed),
              HeaderReads + [Verify(SvixHeadersOf(req))] + [CreateUser(NewUserOf(evt.data, now))])
  {
  }

  /** The last element of a non-empty sequence of effects. */
  function Last(effects: seq<Effect>): Effect
    requires effects != []
  {
    effects[|effects| - 1]
  }

  /**
    Across all inputs: the handler throws only for a missing secret and
    otherwise answers 200, 400 or 500; it verifies exactly when the secret and
    all three headers are present; it creates at most one user; and a 500
    always follows a `createUser` call.
   */
  lemma StatusMatrix(
    secret: Option<string>, req: Request,
    verify: (string, string, SvixHeaders) -> Option<WebhookEvent>, createUser: NewUser -> bool, now: int)
    ensures Handle(secret, req, verify, createUser, now).outcome.MissingSecret? <==> !Present(secret)
    ensures (Handle(secret, req, verify, createUser, now).outcome.Response? && Handle(secret, req, verify, createUser, now).outcome.reply.Status() == 400)
            <==> Present(secret) && (!HeadersPresent(req) || verify(secret.value, req.body, SvixHeadersOf(req)).None?)
    ensures (Handle(secret, req, verify, createUser, now).outcome.Response? && Handle(secret, req, verify, createUser, now).outcome.reply.Status() == 500)
            <==> Present(secret) && HeadersPresent(req) && verify(secret.value, req.body, SvixHeadersOf(req)).Some?
                 && verify(secret.value, req.body, SvixHeadersOf(req)).value.eventType == UserCreated
                 && !createUser(NewUserOf(verify(secret.value, req.body, SvixHeadersOf(req)).value.data, now))
    ensures VerifyCalls(Handle(secret, req, verify, createUser, now).effects) == if Present(secret) && HeadersPresent(req) then 1 else 0
    ensures CreateUserCalls(Handle(secret, req, verify, createUser, now).effects) <= 1
    ensures Handle(secret, req, verify, createUser, now).outcome == Response(CreateUserFailed) ==> CreateUserCalls(Handle(secret, req, verify, createUser, now).effects) == 1
  {
    if !Present(secret) {
      MissingSecretThrows(secret, req, verify, createUser, now);
    } else if !HeadersPresent(req) {
      MissingHeaderRejected(secret, req, verify, createUser, now);
    } else {
      match verify(secret.value, req.body, SvixHeadersOf(req))
      case None =>
        BadSignatureRejected(secret, req, verify, createUser, now);
      case Some(evt) =>
        if evt.eventType == UserCreated {
          UserCreatedProvisions(secret, req, verify, createUser, now, evt);
        } else {
          OtherEventIgnored(secret, req, verify, createUser, now);
        }
    }
  }

  /** The counts of a concatenation add up. */
  lemma {:induction false} CountsAppend(a: seq<Effect>, b: seq<Effect>)
    ensures CreateUserCalls(a + b) == CreateUserCalls(a) + CreateUserCalls(b)
    ensures VerifyCalls(a + b) == VerifyCalls(a) + VerifyCalls(b)
    decreases |a|
  {
    if a == [] {
      assert a + b == b;
    } else {
      CountsAppend(a[1..], b);
      assert (a + b)[1..] == a[1..] + b;
    }
  }

  /**
    The handler's context: it keeps the log of every call the handler makes
    to the outside world.
   */
  class ActionCtx {
    var log: seq<Effect>

    constructor ()
      ensures log == []
    {
      log := [];
    }

    /** Handles one webhook request, appending each outside call to the log as it is made. */
    method ClerkWebhook(
      secret: Option<string>, req: Request,
      verify: (string, string, SvixHeaders) -> Option<WebhookEvent>,
      createUser: NewUser -> bool, now: int) returns (r: Outcome)
      modifies this
      ensures r == Handle(secret, req, verify, createUser, now).outcome
      ensures log == old(log) + Handle(secret, req, verify, createUser, now).effects
    {
      ghost var start := log;
      if !Present(secret) {
        MissingSecretThrows(secret, req, verify, createUser, now);
        return MissingSecret;
      }

      var svixId := req.Header(SvixId);
      log := log + [ReadHeader(SvixId)];
      var svixSignature := req.Header(SvixSignature);
      log := log + [ReadHeader(SvixSignature)];
      var svixTimestamp := req.Header(SvixTimestamp);
      log := log + [ReadHeader(SvixTimestamp)];
      assert log == start + HeaderReads;

      if !Present(svixId) || !Present(svixSignature) || !Present(svixTimestamp) {
        MissingHeaderRejected(secret, req, verify, createUser, now);
        return Response(NoSvixHeaders);
      }

      var headers := SvixHeaders(svixId.value, svixTimestamp.value, svixSignature.value);
      assert headers == SvixHeadersOf(req);
      log := log + [Verify(headers)];
      assert log == start + (HeaderReads + [Verify(headers)]);
      var verified := verify(secret.value, req.body, headers);
      if verified.None? {
        BadSignatureRejected(secret, req, verify, createUser, now);
        return Response(VerificationFailed);
      }
      var evt := verified.value;

      if evt.eventType == UserCreated {
        var user := NewUserOf(evt.data, now);
        log := log + [CreateUser(user)];
        HandleUserCreated(secret, req, verify, createUser, now, evt);
        assert log == start + (HeaderReads + [Verify(headers)] + [CreateUser(user)]);
        ghost var h := Handle(secret, req, verify, createUser, now);
        assert h.effects == HeaderReads + [Verify(headers)] + [CreateUser(user)];
        if !createUser(user) {
          assert h.outcome == Response(CreateUserFailed);
          return Response(CreateUserFailed);
        }
      } else {
        OtherEventIgnored(secret, req, verify, createUser, now);
      }
      return Response(Processed);
    }
  }
}
