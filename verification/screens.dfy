/** The screen handlers of act.py that guard the store: the input checks of
    `RegisterScreen.register` and `ChatScreen.send_message`, and the global
    `current_user` as `LoginScreen.login`, `HomeScreen.go_chat` and
    `ChatScreen.go_back` set, test and clear it. Widgets and layout are not
    modelled; a handler's effect is a new store or session value. */
module Screens {
  import opened Rows
  import opened Text
  import opened Users
  import opened Messages

  /** The global `current_user`, and whether `go_chat` has let the user into
      the chat screen. */
  datatype Session = Session(user: Option<string>, inChat: bool)

  const LoggedOut := Session(None, false)

  /** Python truthiness of a `str` or `None` value, as in `if name:` and
      `if current_user:`: `None` and the empty string are false. */
  predicate Truthy(v: Option<string>) {
    v.Some? && v.value != []
  }

  /** The label text `register` leaves on the screen. */
  datatype RegisterStatus = FillAllFields | InvalidEmail | EmailExists | Registered

  datatype Registration = Registration(status: RegisterStatus, users: seq<User>)

  /** The form fields with `strip()` applied to each. */
  function StripForm(form: NewUser): NewUser
  {
    NewUser(Strip(form.name), Strip(form.email), Strip(form.password), Strip(form.phone))
  }

  /** `RegisterScreen.register`: strip the four fields; reject an empty name,
      email or password, then an email without `@`, before the store is
      touched; otherwise `insert_user`, whose failure means the email exists.
      The phone may be empty. */
  function Register(users: seq<User>, form: NewUser): (r: Registration)
    ensures r.status == FillAllFields
        <==> AllSpace(form.name) || AllSpace(form.email) || AllSpace(form.password)
    ensures r.status == InvalidEmail
        <==> r.status != FillAllFields && '@' !in Strip(form.email)
    ensures r.status == EmailExists
        <==> r.status !in {FillAllFields, InvalidEmail} && EmailTaken(users, Strip(form.email))
    ensures r.status != Registered ==> r.users == users
    ensures r.status == Registered ==>
      && |r.users| == |users| + 1 && r.users[..|users|] == users
      && r.users[|users|].name == Strip(form.name) && r.users[|users|].name != []
      && r.users[|users|].email == Strip(form.email) && '@' in r.users[|users|].email
      && r.users[|users|].password == Strip(form.password) && r.users[|users|].password != []
      && r.users[|users|].phone == Strip(form.phone)
  {
    var f := StripForm(form);
    if f.name == [] || f.email == [] || f.password == [] then Registration(FillAllFields, users)
    else if '@' !in f.email then Registration(InvalidEmail, users)
    else
      var ins := InsertUser(users, f);
      if ins.ok then Registration(Registered, ins.users) else Registration(EmailExists, users)
  }

  /** `LoginScreen.login`: strip both fields and ask `check_user`; a truthy
      name becomes `current_user`, anything else leaves it alone. */
  function Login(users: seq<User>, s: Session, email: string, password: string): (r: Session)
    ensures r.inChat == s.inChat
    ensures r.user != s.user ==> Truthy(r.user)
    ensures r.user != s.user ==>
      exists k :: 0 <= k < |users| && users[k].email == Strip(email)
                  && users[k].password == Strip(password) && Some(users[k].name) == r.user
  {
    var name := CheckUser(users, Strip(email), Strip(password));
    if Truthy(name) then s.(user := name) else s
  }

  /** After a successful registration, logging in with the same raw email and
      password text makes the stripped name the current user. */
  lemma RegisterThenLogin(users: seq<User>, form: NewUser, s: Session)
    requires UniqueEmails(users)
    requires Register(users, form).status == Registered
    ensures Login(Register(users, form).users, s, form.email, form.password).user == Some(Strip(form.name))
  {
    var f := StripForm(form);
    var ins := InsertUser(users, f);
    assert Register(users, form) == Registration(Registered, ins.users);
    InsertThenCheck(users, f);
    var name := CheckUser(ins.users, f.email, f.password);
    assert name == Some(f.name) && Truthy(name);
  }

  /** A wrong password and an unknown email have the same effect on the
      session: none. */
  lemma LoginFailuresAlike(users: seq<User>, s: Session, email: string, password: string)
    requires UniqueEmails(users)
    requires !EmailTaken(users, Strip(email))
          || exists k :: 0 <= k < |users| && users[k].email == Strip(email) && users[k].password != Strip(password)
    ensures Login(users, s, email, password) == s
  {
    FailuresIndistinguishable(users, Strip(email), Strip(password));
  }

  /** With every stored name non-empty, login sets `current_user` to the
      matching row's name exactly when some row matches the stripped email and
      password, and otherwise changes nothing. */
  lemma LoginSucceedsIffMatch(users: seq<User>, s: Session, email: string, password: string)
    requires forall k :: 0 <= k < |users| ==> users[k].name != []
    ensures var e, p := Strip(email), Strip(password);
      (exists k :: 0 <= k < |users| && users[k].email == e && users[k].password == p)
        ==> Truthy(CheckUser(users, e, p)) && Login(users, s, email, password) == s.(user := CheckUser(users, e, p))
    ensures var e, p := Strip(email), Strip(password);
      (forall k :: 0 <= k < |users| ==> users[k].email != e || users[k].password != p)
        ==> Login(users, s, email, password) == s
  {
    var name := CheckUser(users, Strip(email), Strip(password));
    if name.Some? {
      var k :| 0 <= k < |users| && users[k].email == Strip(email)
               && users[k].password == Strip(password) && users[k].name == name.value;
      assert Truthy(name);
    }
  }

  /** `HomeScreen.go_chat`: the chat screen opens only while `current_user`
      is truthy. */
  function GoChat(s: Session): (r: Session)
    ensures r.user == s.user
    ensures r.inChat <==> s.inChat || Truthy(s.user)
  {
    if Truthy(s.user) then s.(inChat := true) else s
  }

  /** `ChatScreen.go_back`: `current_user` becomes `None` whatever it was, and
      the chat screen is left. */
  function ExitChat(s: Session): (r: Session)
    ensures r.user == None && !r.inChat
    ensures GoChat(r) == r
  {
    LoggedOut
  }

  /** `ChatScreen.send_message`: strip the text; nothing is stored when that
      leaves it empty, otherwise `save_message(current_user, text)` appends one
      entry stamped with `now`. */
  function SendMessage(s: Session, log: seq<Message>, text: string, now: nat): (r: seq<Message>)
    ensures AllSpace(text) ==> r == log
    ensures !AllSpace(text) ==>
      && |r| == |log| + 1 && r[..|log|] == log
      && r[|log|].sender == s.user && r[|log|].timestamp == now
      && r[|log|].body == Strip(text) && r[|log|].body != []
  {
    var body := Strip(text);
    if body == [] then log else SaveMessage(log, s.user, body, now)
  }

  /** The whole program state the core touches. */
  datatype App = App(users: seq<User>, log: seq<Message>, session: Session)

  const Start := App([], [], LoggedOut)

  /** A button press on one of the screens, or a fresh launch of the program.
      Send and Exit Chat exist only on the chat screen, so they do nothing
      outside it. A launch keeps both tables, which live in the database
      file, and starts with no `current_user`. */
  datatype Event =
    | PressRegister(form: NewUser)
    | PressLogin(email: string, password: string)
    | PressChatRoom
    | PressSend(text: string, now: nat)
    | PressExitChat
    | Relaunch

  function Step(a: App, e: Event): App {
    match e
    case PressRegister(form) => a.(users := Register(a.users, form).users)
    case PressLogin(email, password) => a.(session := Login(a.users, a.session, email, password))
    case PressChatRoom => a.(session := GoChat(a.session))
    case PressSend(text, now) =>
      if a.session.inChat then a.(log := SendMessage(a.session, a.log, text, now)) else a
    case PressExitChat =>
      if a.session.inChat then a.(session := ExitChat(a.session)) else a
    case Relaunch => a.(session := LoggedOut)
  }

  function Run(a: App, es: seq<Event>): App
    decreases |es|
  {
    if |es| == 0 then a else Run(Step(a, es[0]), es[1..])
  }

  /** Once logged out, no sequence of presses without a login opens the chat
      or sets `current_user` again. */
  lemma {:induction false} NoChatWithoutLogin(a: App, es: seq<Event>)
    requires a.session == LoggedOut
    requires forall i :: 0 <= i < |es| ==> !es[i].PressLogin?
    ensures Run(a, es).session == LoggedOut
    decreases |es|
  {
    if |es| > 0 {
      NoChatWithoutLogin(Step(a, es[0]), es[1..]);
    }
  }

  /** `who` is the name of a stored user. */
  predicate IsUserName(users: seq<User>, who: Option<string>) {
    who.Some? && exists k :: 0 <= k < |users| && users[k].name == who.value
  }

  /** What holds of every state the screens can reach from an empty store. */
  predicate AppInv(a: App) {
    && Valid(a.users)
    && (forall k :: 0 <= k < |a.users| ==> RegisteredRow(a.users[k]))
    && UniqueMessageIds(a.log)
    && (forall i :: 0 <= i < |a.log| ==> a.log[i].body != [] && IsUserName(a.users, a.log[i].sender))
    && (a.session.user == None || IsUserName(a.users, a.session.user))
    && (a.session.inChat ==> a.session.user.Some?)
  }

  lemma StartInv()
    ensures AppInv(Start)
  {
  }

  /** A user name stays a user name when rows are appended. */
  lemma UserNameKept(users: seq<User>, more: seq<User>, who: Option<string>)
    requires |users| <= |more| && more[..|users|] == users
    requires IsUserName(users, who)
    ensures IsUserName(more, who)
  {
    var k :| 0 <= k < |users| && users[k].name == who.value;
    assert more[k] == users[k];
  }

  /** What registration checks of every row it stores. */
  predicate RegisteredRow(u: User) {
    u.name != [] && '@' in u.email
  }

  lemma AppendKeepsRows(users: seq<User>, more: seq<User>)
    requires forall k :: 0 <= k < |users| ==> RegisteredRow(users[k])
    requires |more| == |users| + 1 && more[..|users|] == users && RegisteredRow(more[|users|])
    ensures forall k :: 0 <= k < |more| ==> RegisteredRow(more[k])
  {
    forall k | 0 <= k < |users| ensures RegisteredRow(more[k]) {
      assert more[k] == more[..|users|][k];
    }
  }

  /** The rows registration stores have a non-empty name and an email with `@`. */
  lemma RegisterKeepsRowsWellFormed(users: seq<User>, form: NewUser)
    requires forall k :: 0 <= k < |users| ==> RegisteredRow(users[k])
    ensures var r := Register(users, form).users;
      forall k :: 0 <= k < |r| ==> RegisteredRow(r[k])
  {
    var reg := Register(users, form);
    if reg.status == Registered {
      AppendKeepsRows(users, reg.users);
    }
  }

  lemma RegisterKeepsInv(a: App, form: NewUser)
    requires AppInv(a)
    ensures AppInv(Step(a, PressRegister(form)))
  {
    var r := Register(a.users, form);
    RegisterKeepsRowsWellFormed(a.users, form);
    if r.status == Registered {
      var f := StripForm(form);
      assert r.users == InsertUser(a.users, f).users;
      InsertUserKeepsValid(a.users, f);
      forall i | 0 <= i < |a.log| ensures IsUserName(r.users, a.log[i].sender) {
        UserNameKept(a.users, r.users, a.log[i].sender);
      }
      if a.session.user.Some? {
        UserNameKept(a.users, r.users, a.session.user);
      }
    }
  }

  lemma SendKeepsInv(a: App, text: string, now: nat)
    requires AppInv(a)
    ensures AppInv(Step(a, PressSend(text, now)))
  {
    if a.session.inChat && !AllSpace(text) {
      var log' := SendMessage(a.session, a.log, text, now);
      SaveMessageKeepsIdsUnique(a.log, a.session.user, Strip(text), now);
      forall i | 0 <= i < |log'| ensures log'[i].body != [] && IsUserName(a.users, log'[i].sender) {
        if i < |a.log| {
          assert log'[i] == a.log[i];
        }
      }
    }
  }

  lemma LoginKeepsInv(a: App, email: string, password: string)
    requires AppInv(a)
    ensures AppInv(Step(a, PressLogin(email, password)))
  {
  }

  /** Every button press keeps the invariant. In particular every stored
      message has a non-empty body and is attributed to a registered user, and
      the chat screen is open only with someone logged in. */
  lemma StepKeepsInv(a: App, e: Event)
    requires AppInv(a)
    ensures AppInv(Step(a, e))
  {
    match e
    case PressRegister(form) => RegisterKeepsInv(a, form);
    case PressLogin(email, password) => LoginKeepsInv(a, email, password);
    case PressChatRoom =>
    case PressSend(text, now) => SendKeepsInv(a, text, now);
    case PressExitChat =>
    case Relaunch =>
  }

  lemma {:induction false} RunKeepsInv(a: App, es: seq<Event>)
    requires AppInv(a)
    ensures AppInv(Run(a, es))
    decreases |es|
  {
    if |es| > 0 {
      StepKeepsInv(a, es[0]);
      RunKeepsInv(Step(a, es[0]), es[1..]);
    }
  }

  /** From an empty store, whatever buttons are pressed, emails stay unique,
      every message shown has a registered sender and a non-empty body, and
      the chat is open only to a logged-in user. */
  lemma ReachableStatesSafe(es: seq<Event>)
    ensures var a := Run(Start, es);
      && UniqueEmails(a.users)
      && (forall m :: m in GetMessages(a.log) ==> m.body != [] && IsUserName(a.users, m.sender))
      && (a.session.inChat ==> Truthy(a.session.user))
  {
    StartInv();
    RunKeepsInv(Start, es);
    var a := Run(Start, es);
    forall m | m in GetMessages(a.log) ensures m.body != [] && IsUserName(a.users, m.sender) {
      assert m in multiset(GetMessages(a.log));
      var i :| 0 <= i < |a.log| && a.log[i] == m;
    }
    if a.session.inChat {
      var k :| 0 <= k < |a.users| && a.users[k].name == a.session.user.value;
    }
  }
}
