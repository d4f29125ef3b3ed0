/** The auth router: user and partner registration, and the user, partner
    and admin logins. Password hashing is an abstract hash function and
    verifier; the schemas' string checks are abstract predicates. */
module Auth {
  import opened Common
  import opened Store

  /** bcrypt as the handlers see it: `hash(password, 10)` and `compare(password, hash)`. */
  datatype PasswordHasher = PasswordHasher(hash: string -> string, compare: (string, string) -> bool)

  /** A verifier that accepts a password against a hash made from it. */
  ghost predicate Sound(h: PasswordHasher)
  {
    forall password :: h.compare(password, h.hash(password))
  }

  // ----------------------------------------------------------- e-mail lookups

  /** `user.findUnique({ where: { email } })`. */
  function UserByEmail(users: seq<Row<User>>, email: string): (r: Option<nat>)
    ensures r.Some? ==> r.value < |users| && users[r.value].data.email == email
    ensures r.None? <==> forall i :: 0 <= i < |users| ==> users[i].data.email != email
  {
    FirstIndex(users, (u: Row<User>) => u.data.email == email)
  }

  /** `partner.findUnique({ where: { email } })`. */
  function PartnerByEmail(partners: seq<Row<Partner>>, email: string): (r: Option<nat>)
    ensures r.Some? ==> r.value < |partners| && partners[r.value].data.email == email
    ensures r.None? <==> forall i :: 0 <= i < |partners| ==> partners[i].data.email != email
  {
    FirstIndex(partners, (p: Row<Partner>) => p.data.email == email)
  }

  /** `admin.findUnique({ where: { email } })`. */
  function AdminByEmail(admins: seq<Row<Admin>>, email: string): (r: Option<nat>)
    ensures r.Some? ==> r.value < |admins| && admins[r.value].data.email == email
    ensures r.None? <==> forall i :: 0 <= i < |admins| ==> admins[i].data.email != email
  {
    FirstIndex(admins, (a: Row<Admin>) => a.data.email == email)
  }

  // ----------------------------------------------------------- userRegister

  datatype UserRegisterInput = UserRegisterInput(
    email: string,
    password: string,
    name: string,
    age: int,
    gender: string,
    bio: Option<string>,
    location: string,
    sports: seq<string>,
    images: seq<string>)

  /** `userRegisterSchema`. */
  predicate UserSchemaOk(v: Validators, input: UserRegisterInput)
  {
    && v.isEmail(input.email)
    && |input.password| >= 6
    && |input.name| >= 2
    && input.age >= 18
    && |input.sports| >= 1
    && 1 <= |input.images| <= 5
    && forall i :: 0 <= i < |input.images| ==> v.isUrl(input.images[i])
  }

  /** The `forEach` over the images: the first one `new URL` rejects, if any. */
  function FirstBadImage(v: Validators, images: seq<string>): (r: Option<nat>)
    ensures r.Some? ==> r.value < |images| && !v.parsesAsUrl(images[r.value])
    ensures r.Some? ==> forall j :: 0 <= j < r.value ==> v.parsesAsUrl(images[j])
    ensures r.None? <==> forall j :: 0 <= j < |images| ==> v.parsesAsUrl(images[j])
  {
    FirstIndex(images, (s: string) => !v.parsesAsUrl(s))
  }

  /** The user row userRegister writes: ACTIVE, with the hash of the password. */
  function NewUser(h: PasswordHasher, input: UserRegisterInput): (u: User)
    ensures u.status == Active && u.passwordHash == h.hash(input.password) && u.email == input.email
  {
    User(input.email, h.hash(input.password), input.name, input.age, input.gender, input.bio,
         input.location, input.sports, input.images, Active)
  }

  /** What userRegister returns: id, email, name and status, and nothing else. */
  datatype UserSummary = UserSummary(id: Id, email: string, name: string, status: UserStatus)

  /** userRegister, as a change of the store: the schema, then the e-mail
      (CONFLICT), then every image through `new URL`, then one new user. */
  function UserRegisterEffect(t: Tables, v: Validators, h: PasswordHasher, input: UserRegisterInput): (out: (Tables, Result<UserSummary>))
    requires t.Valid()
    ensures out.0.Valid()
  {
    if !UserSchemaOk(v, input) then (t, Err(BadRequest))
    else if UserByEmail(t.users, input.email).Some? then (t, Err(Conflict))
    else if FirstBadImage(v, input.images).Some? then (t, Err(BadRequest))
    else (InsertUser(t, NewUser(h, input)), Ok(UserSummary(t.clock, input.email, input.name, Active)))
  }

  /** userRegister: the handler, which leaves the store and answers as `UserRegisterEffect` says. */
  method UserRegister(db: Database, v: Validators, h: PasswordHasher, input: UserRegisterInput) returns (r: Result<UserSummary>)
    requires db.Valid()
    modifies db
    ensures db.Valid()
    ensures (db.tables, r) == UserRegisterEffect(old(db.tables), v, h, input)
  {
    if !UserSchemaOk(v, input) {
      return Err(BadRequest);
    }
    var existingUser := UserByEmail(db.tables.users, input.email);
    if existingUser.Some? {
      return Err(Conflict);
    }
    var badImage := FirstBadImage(v, input.images);
    if badImage.Some? {
      return Err(BadRequest);
    }
    var id := db.tables.clock;
    db.tables := InsertUser(db.tables, NewUser(h, input));
    return Ok(UserSummary(id, input.email, input.name, Active));
  }

  /** The e-mail belongs to a stored user. */
  ghost predicate UserEmailTaken(users: seq<Row<User>>, email: string)
  {
    exists i :: 0 <= i < |users| && users[i].data.email == email
  }

  /** userRegister succeeds exactly for a valid input with a free e-mail whose
      images all parse; a rejected schema is BAD_REQUEST, then a taken e-mail
      CONFLICT, then an image `new URL` rejects BAD_REQUEST; a failure adds no
      user; a success adds one ACTIVE user holding the password's hash. */
  lemma UserRegisterOutcome(t: Tables, v: Validators, h: PasswordHasher, input: UserRegisterInput)
    requires t.Valid()
    ensures var out := UserRegisterEffect(t, v, h, input);
      && (out.1.Ok? <==> UserSchemaOk(v, input) && !UserEmailTaken(t.users, input.email)
                         && forall j :: 0 <= j < |input.images| ==> v.parsesAsUrl(input.images[j]))
      && (!UserSchemaOk(v, input) ==> out.1 == Err(BadRequest))
      && (UserSchemaOk(v, input) && UserEmailTaken(t.users, input.email) ==> out.1 == Err(Conflict))
      && (UserSchemaOk(v, input) && !UserEmailTaken(t.users, input.email) ==>
            (exists j :: 0 <= j < |input.images| && !v.parsesAsUrl(input.images[j])) ==> out.1 == Err(BadRequest))
      && (out.1.Err? ==> out.0 == t)
      && (out.1.Ok? ==>
            && out.0 == t.(users := t.users + [Row(t.clock, t.clock, NewUser(h, input))], clock := t.clock + 1)
            && out.1.value == UserSummary(t.clock, input.email, input.name, Active))
  {
  }

  /** zod's `url()` accepts only what `new URL` parses, so the handler's
      second URL check never rejects an input the schema let through. */
  lemma ImageCheckRedundant(t: Tables, v: Validators, h: PasswordHasher, input: UserRegisterInput)
    requires t.Valid()
    requires forall s :: v.isUrl(s) ==> v.parsesAsUrl(s)
    ensures UserRegisterEffect(t, v, h, input).1.Ok? <==> UserSchemaOk(v, input) && !UserEmailTaken(t.users, input.email)
  {
    UserRegisterOutcome(t, v, h, input);
    if UserSchemaOk(v, input) {
      assert forall j :: 0 <= j < |input.images| ==> v.isUrl(input.images[j]);
    }
  }

  // -------------------------------------------------------------- userLogin

  /** What userLogin returns. */
  datatype UserProfile = UserProfile(
    id: Id,
    email: string,
    name: string,
    status: UserStatus,
    bio: Option<string>,
    location: string,
    sports: seq<string>,
    images: seq<string>)

  function ProfileOf(u: Row<User>): UserProfile
  {
    UserProfile(u.id, u.data.email, u.data.name, u.data.status, u.data.bio, u.data.location, u.data.sports, u.data.images)
  }

  /** userLogin: the schema, then the e-mail (UNAUTHORIZED), then a BLOCKED
      account (FORBIDDEN, whatever the password), then the password
      (UNAUTHORIZED). INVISIBLE accounts log in. */
  function UserLogin(users: seq<Row<User>>, v: Validators, h: PasswordHasher, email: string, password: string): (r: Result<UserProfile>)
    requires UserEmailsUnique(users)
    ensures !v.isEmail(email) ==> r == Err(BadRequest)
    ensures v.isEmail(email) && !UserEmailTaken(users, email) ==> r == Err(Unauthorized)
    ensures v.isEmail(email) ==> forall i :: 0 <= i < |users| && users[i].data.email == email ==>
      r == if users[i].data.status == Blocked then Err(Forbidden)
           else if !h.compare(password, users[i].data.passwordHash) then Err(Unauthorized)
           else Ok(ProfileOf(users[i]))
  {
    UserEmailsPairwise(users);
    if !v.isEmail(email) then Err(BadRequest)
    else match UserByEmail(users, email)
      case None => Err(Unauthorized)
      case Some(k) =>
        var user := users[k];
        if user.data.status == Blocked then Err(Forbidden)
        else if !h.compare(password, user.data.passwordHash) then Err(Unauthorized)
        else Ok(ProfileOf(user))
  }

  /** A registered user logs in with the password they registered with. */
  lemma RegisterThenLogin(t: Tables, v: Validators, h: PasswordHasher, input: UserRegisterInput)
    requires t.Valid() && Sound(h)
    ensures var out := UserRegisterEffect(t, v, h, input);
      out.1.Ok? ==>
        UserLogin(out.0.users, v, h, input.email, input.password)
          == Ok(UserProfile(out.1.value.id, input.email, input.name, Active, input.bio, input.location, input.sports, input.images))
  {
    var out := UserRegisterEffect(t, v, h, input);
    if out.1.Ok? {
      UserRegisterOutcome(t, v, h, input);
      var n := |t.users|;
      assert out.0.users[n].data == NewUser(h, input);
      assert h.compare(input.password, h.hash(input.password));
    }
  }

  // -------------------------------------------------------- partnerRegister

  datatype PartnerRegisterInput = PartnerRegisterInput(
    email: string,
    password: string,
    companyName: string,
    description: Option<string>,
    websiteLink: Option<string>,
    address: string)

  /** `partnerRegisterSchema`: an optional website must be a URL when given. */
  predicate PartnerSchemaOk(v: Validators, input: PartnerRegisterInput)
  {
    && v.isEmail(input.email)
    && |input.password| >= 6
    && |input.companyName| >= 2
    && (input.websiteLink.Some? ==> v.isUrl(input.websiteLink.value))
  }

  /** The partner row partnerRegister writes: PENDING, with the hash of the password. */
  function NewPartner(h: PasswordHasher, input: PartnerRegisterInput): (p: Partner)
    ensures p.status == Pending && p.passwordHash == h.hash(input.password) && p.email == input.email
  {
    Partner(input.email, h.hash(input.password), input.companyName, input.description, input.websiteLink,
            input.address, Pending)
  }

  datatype PartnerSummary = PartnerSummary(id: Id, email: string, companyName: string, status: PartnerStatus)

  /** partnerRegister, as a change of the store: the schema, then the e-mail
      (CONFLICT), then one new PENDING partner. */
  function PartnerRegisterEffect(t: Tables, v: Validators, h: PasswordHasher, input: PartnerRegisterInput): (out: (Tables, Result<PartnerSummary>))
    requires t.Valid()
    ensures out.0.Valid()
  {
    if !PartnerSchemaOk(v, input) then (t, Err(BadRequest))
    else if PartnerByEmail(t.partners, input.email).Some? then (t, Err(Conflict))
    else (InsertPartner(t, NewPartner(h, input)), Ok(PartnerSummary(t.clock, input.email, input.companyName, Pending)))
  }

  /** partnerRegister: the handler, which leaves the store and answers as `PartnerRegisterEffect` says. */
  method PartnerRegister(db: Database, v: Validators, h: PasswordHasher, input: PartnerRegisterInput) returns (r: Result<PartnerSummary>)
    requires db.Valid()
    modifies db
    ensures db.Valid()
    ensures (db.tables, r) == PartnerRegisterEffect(old(db.tables), v, h, input)
  {
    if !PartnerSchemaOk(v, input) {
      return Err(BadRequest);
    }
    var existingPartner := PartnerByEmail(db.tables.partners, input.email);
    if existingPartner.Some? {
      return Err(Conflict);
    }
    var id := db.tables.clock;
    db.tables := InsertPartner(db.tables, NewPartner(h, input));
    return Ok(PartnerSummary(id, input.email, input.companyName, Pending));
  }

  /** partnerRegister rejects a bad input with BAD_REQUEST, then a taken e-mail
      with CONFLICT, and otherwise adds one PENDING partner. */
  lemma PartnerRegisterOutcome(t: Tables, v: Validators, h: PasswordHasher, input: PartnerRegisterInput)
    requires t.Valid()
    ensures var out := PartnerRegisterEffect(t, v, h, input);
      && (out.1.Ok? <==> PartnerSchemaOk(v, input) && forall i :: 0 <= i < |t.partners| ==> t.partners[i].data.email != input.email)
      && (!PartnerSchemaOk(v, input) ==> out.1 == Err(BadRequest))
      && (PartnerSchemaOk(v, input) && (exists i :: 0 <= i < |t.partners| && t.partners[i].data.email == input.email) ==> out.1 == Err(Conflict))
      && (out.1.Err? ==> out.0 == t)
      && (out.1.Ok? ==>
            && out.0 == t.(partners := t.partners + [Row(t.clock, t.clock, NewPartner(h, input))], clock := t.clock + 1)
            && out.1.value == PartnerSummary(t.clock, input.email, input.companyName, Pending))
  {
  }

  // ----------------------------------------------------------- partnerLogin

  datatype PartnerProfile = PartnerProfile(
    id: Id,
    email: string,
    companyName: string,
    status: PartnerStatus,
    description: Option<string>,
    websiteLink: Option<string>,
    address: string)

  function PartnerProfileOf(p: Row<Partner>): PartnerProfile
  {
    PartnerProfile(p.id, p.data.email, p.data.companyName, p.data.status, p.data.description, p.data.websiteLink, p.data.address)
  }

  /** partnerLogin: the schema, then the e-mail and the password, both
      UNAUTHORIZED. The partner's status is not checked. */
  function PartnerLogin(partners: seq<Row<Partner>>, v: Validators, h: PasswordHasher, email: string, password: string): (r: Result<PartnerProfile>)
    requires PartnerEmailsUnique(partners)
    ensures !v.isEmail(email) ==> r == Err(BadRequest)
    ensures v.isEmail(email) && (forall i :: 0 <= i < |partners| ==> partners[i].data.email != email) ==> r == Err(Unauthorized)
    ensures v.isEmail(email) ==> forall i :: 0 <= i < |partners| && partners[i].data.email == email ==>
      r == if h.compare(password, partners[i].data.passwordHash) then Ok(PartnerProfileOf(partners[i])) else Err(Unauthorized)
  {
    PartnerEmailsPairwise(partners);
    if !v.isEmail(email) then Err(BadRequest)
    else match PartnerByEmail(partners, email)
      case None => Err(Unauthorized)
      case Some(k) =>
        var partner := partners[k];
        if !h.compare(password, partner.data.passwordHash) then Err(Unauthorized)
        else Ok(PartnerProfileOf(partner))
  }

  /** A partner registered moments ago, still PENDING, logs in. */
  lemma PendingPartnerLogsIn(t: Tables, v: Validators, h: PasswordHasher, input: PartnerRegisterInput)
    requires t.Valid() && Sound(h)
    ensures var out := PartnerRegisterEffect(t, v, h, input);
      out.1.Ok? ==>
        var r := PartnerLogin(out.0.partners, v, h, input.email, input.password);
        r.Ok? && r.value.id == out.1.value.id && r.value.status == Pending
  {
    var out := PartnerRegisterEffect(t, v, h, input);
    if out.1.Ok? {
      var n := |t.partners|;
      assert out.0.partners[n].data == NewPartner(h, input);
      assert h.compare(input.password, h.hash(input.password));
    }
  }

  // ------------------------------------------------------------- adminLogin

  /** What adminLogin returns: id, email and name, and nothing else. */
  datatype AdminView = AdminView(id: Id, email: string, name: string)

  /** adminLogin: the schema, then the e-mail and the password, both UNAUTHORIZED. */
  function AdminLogin(admins: seq<Row<Admin>>, v: Validators, h: PasswordHasher, email: string, password: string): (r: Result<AdminView>)
    requires AdminEmailsUnique(admins)
    ensures !v.isEmail(email) ==> r == Err(BadRequest)
    ensures v.isEmail(email) && (forall i :: 0 <= i < |admins| ==> admins[i].data.email != email) ==> r == Err(Unauthorized)
    ensures v.isEmail(email) ==> forall i :: 0 <= i < |admins| && admins[i].data.email == email ==>
      r == if h.compare(password, admins[i].data.passwordHash) then Ok(AdminView(admins[i].id, email, admins[i].data.name)) else Err(Unauthorized)
  {
    AdminEmailsPairwise(admins);
    if !v.isEmail(email) then Err(BadRequest)
    else match AdminByEmail(admins, email)
      case None => Err(Unauthorized)
      case Some(k) =>
        var admin := admins[k];
        if !h.compare(password, admin.data.passwordHash) then Err(Unauthorized)
        else Ok(AdminView(admin.id, admin.data.email, admin.data.name))
  }
}
