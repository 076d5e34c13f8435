/** Admin and technical accounts: the admin store of
    src/repositories/admin_repositories.py over table "Admin", the
    technical store, and the conflict checks of
    src/controller/admin_controller.py in front of them. Ids are UUIDs the
    caller draws (uuid4), here a parameter; password hashing and checking
    are functions the controller is given. The "Admin" table has a primary
    key on admin_id and unique columns username and Email_phone; the
    technical table's own constraints are not part of this model, so only
    its primary key refuses a commit. */
module AdminControl {
  import opened Common
  import opened Accounts

  /** A row of table "Admin". */
  datatype Admin = Admin(adminId: int, username: string, password: string, role: string, emailPhone: Option<string>)

  /** A technical account row. */
  datatype Technical = Technical(technicalId: int, username: string, password: string, name: string,
                                 phoneNumber: string, role: string, status: Status)

  type Admins = map<int, Admin>
  type Technicals = map<int, Technical>

  /** get_by_username finds an admin. */
  predicate UsernameTaken(admins: Admins, username: string) {
    exists k :: k in admins && admins[k].username == username
  }

  /** get_by_email_phone finds an admin. */
  predicate ContactTaken(admins: Admins, contact: string) {
    exists k :: k in admins && admins[k].emailPhone == Some(contact)
  }

  /** An admin other than `id` holds the username, or the contact. */
  predicate UsernameElsewhere(admins: Admins, id: int, username: string) {
    exists k :: k in admins && k != id && admins[k].username == username
  }

  predicate ContactElsewhere(admins: Admins, id: int, contact: Option<string>) {
    contact.Some? && exists k :: k in admins && k != id && admins[k].emailPhone == contact
  }

  /** The table as the database keeps it: each row under its own id, no
      two rows with one username, none with one contact (NULLs apart). */
  predicate AdminsConsistent(admins: Admins) {
    && (forall k :: k in admins ==> admins[k].adminId == k)
    && (forall a, b :: a in admins && b in admins && admins[a].username == admins[b].username ==> a == b)
    && (forall a, b :: a in admins && b in admins && admins[a].emailPhone.Some? && admins[a].emailPhone == admins[b].emailPhone
          ==> a == b)
  }

  /** get_by_username / get_by_phone_number on the technical store. */
  predicate TechnicalUsernameTaken(techs: Technicals, username: string) {
    exists k :: k in techs && techs[k].username == username
  }

  predicate PhoneTaken(techs: Technicals, phone: string) {
    exists k :: k in techs && techs[k].phoneNumber == phone
  }

  /** Each technical row under its own id. */
  predicate TechnicalsKeyed(techs: Technicals) {
    forall k :: k in techs ==> techs[k].technicalId == k
  }

  /** What create_technical_account keeps: usernames and phone numbers
      are unique among technical accounts. */
  predicate TechnicalsUnique(techs: Technicals) {
    && TechnicalsKeyed(techs)
    && (forall a, b :: a in techs && b in techs && techs[a].username == techs[b].username ==> a == b)
    && (forall a, b :: a in techs && b in techs && techs[a].phoneNumber == techs[b].phoneNumber ==> a == b)
  }

  /** The admin create_admin stores: the hashed password, role "admin". */
  function NewAdmin(id: int, a: AdminCreate, hash: string -> string): (row: Admin)
    ensures row.adminId == id && row.username == a.username && row.emailPhone == Some(a.emailPhone)
    ensures row.password == hash(a.password) && row.role == "admin"
  {
    Admin(id, a.username, hash(a.password), "admin", Some(a.emailPhone))
  }

  /** create_admin: a taken username, then a taken contact, is refused
      before anything is written; the insert itself is refused only on a
      primary key collision. */
  function CreateAdminOutcome(admins: Admins, id: int, hash: string -> string, a: AdminCreate): (s: (Result<Admin>, Admins))
  {
    if UsernameTaken(admins, a.username) then (Err(Http(409, "Username already taken.")), admins)
    else if ContactTaken(admins, a.emailPhone) then (Err(Http(409, "Email/Phone already in use.")), admins)
    else if id in admins then (Err(CommitRejected), admins)
    else (Ok(NewAdmin(id, a, hash)), admins[id := NewAdmin(id, a, hash)])
  }

  /** The admin update_admin leaves: the fields the request sets are
      written, a new password hashed; everything else is kept. */
  function AdminOverlay(row: Admin, u: AdminUpdate, hash: string -> string): (r: Admin)
    ensures r.adminId == row.adminId && r.role == row.role
    ensures r.username == if u.username.Some? then u.username.value else row.username
    ensures r.password == if u.password.Some? then hash(u.password.value) else row.password
    ensures r.emailPhone == if u.emailPhone.Some? then u.emailPhone else row.emailPhone
  {
    Admin(row.adminId,
          if u.username.Some? then u.username.value else row.username,
          if u.password.Some? then hash(u.password.value) else row.password,
          row.role,
          if u.emailPhone.Some? then u.emailPhone else row.emailPhone)
  }

  /** update_admin: 404 for an absent admin; the commit is refused when
      the new row would share a username or a contact with another. */
  function UpdateAdminOutcome(admins: Admins, id: int, hash: string -> string, u: AdminUpdate): (s: (Result<Admin>, Admins))
  {
    if id !in admins then (Err(Http(404, "Admin not found")), admins)
    else
      var row := AdminOverlay(admins[id], u, hash);
      if UsernameElsewhere(admins, id, row.username) || ContactElsewhere(admins, id, row.emailPhone)
      then (Err(CommitRejected), admins)
      else (Ok(row), admins[id := row])
  }

  /** The technical account create_technical_account stores: the hashed
      password, role "technical", status free. */
  function NewTechnical(id: int, t: TechnicalCreate, hash: string -> string): (row: Technical)
    ensures row.technicalId == id && row.username == t.username && row.name == t.name
    ensures row.phoneNumber == t.phoneNumber && row.password == hash(t.password)
    ensures row.role == "technical" && row.status == Free
  {
    Technical(id, t.username, hash(t.password), t.name, t.phoneNumber, "technical", Free)
  }

  /** The conflict checks of create_technical_account, in order: the
      username against both tables, then the phone against the technical
      table, then against the admin contacts. */
  function TechnicalRefusal(admins: Admins, techs: Technicals, t: TechnicalCreate): (e: Option<Error>)
  {
    if UsernameTaken(admins, t.username) || TechnicalUsernameTaken(techs, t.username)
    then Some(Http(409, "Username taken."))
    else if PhoneTaken(techs, t.phoneNumber)
    then Some(Http(409, "Phone number linked to another Technical account."))
    else if ContactTaken(admins, t.phoneNumber)
    then Some(Http(409, "Phone number linked to an Admin account."))
    else None
  }

  /** create_technical_account: nothing is written when a check refuses;
      the insert itself is refused only on a primary key collision. */
  function CreateTechnicalOutcome(admins: Admins, techs: Technicals, id: int, hash: string -> string, t: TechnicalCreate)
    : (s: (Result<Technical>, Technicals))
  {
    var refusal := TechnicalRefusal(admins, techs, t);
    if refusal.Some? then (Err(refusal.value), techs)
    else if id in techs then (Err(CommitRejected), techs)
    else (Ok(NewTechnical(id, t, hash)), techs[id := NewTechnical(id, t, hash)])
  }

  /** create_admin refuses a taken username before it looks at the
      contact, writes nothing when it refuses, stores only the hashed
      password, and keeps the table consistent. */
  lemma CreateAdminSpec(admins: Admins, id: int, hash: string -> string, a: AdminCreate)
    requires AdminsConsistent(admins)
    ensures var (r, admins') := CreateAdminOutcome(admins, id, hash, a);
      && (UsernameTaken(admins, a.username) ==> r == Err(Http(409, "Username already taken.")))
      && ((!UsernameTaken(admins, a.username) && ContactTaken(admins, a.emailPhone))
            ==> r == Err(Http(409, "Email/Phone already in use.")))
      && (r.Ok? <==> !UsernameTaken(admins, a.username) && !ContactTaken(admins, a.emailPhone) && id !in admins)
      && (r.Err? ==> admins' == admins)
      && (r.Ok? ==> admins' == admins[id := r.value] && r.value.password == hash(a.password)
                    && r.value.role == "admin" && r.value.username == a.username)
      && AdminsConsistent(admins')
  {
    if !UsernameTaken(admins, a.username) && !ContactTaken(admins, a.emailPhone) && id !in admins {
      InsertKeepsConsistent(admins, NewAdmin(id, a, hash));
    }
  }

  /** Adding a row with a fresh id, a free username and a free contact
      keeps the admin table consistent. */
  lemma InsertKeepsConsistent(admins: Admins, row: Admin)
    requires AdminsConsistent(admins) && row.adminId !in admins
    requires !UsernameTaken(admins, row.username)
    requires row.emailPhone.None? || !ContactTaken(admins, row.emailPhone.value)
    ensures AdminsConsistent(admins[row.adminId := row])
  {
  }

  /** update_admin changes only the one admin, only in the fields the
      request sets, rehashes only a supplied password, and keeps the table
      consistent. */
  lemma UpdateAdminSpec(admins: Admins, id: int, hash: string -> string, u: AdminUpdate)
    requires AdminsConsistent(admins)
    ensures var (r, admins') := UpdateAdminOutcome(admins, id, hash, u);
      && (r == Err(Http(404, "Admin not found")) <==> id !in admins)
      && (r.Err? ==> admins' == admins)
      && (r.Ok? ==> admins' == admins[id := r.value] && r.value == AdminOverlay(admins[id], u, hash))
      && (r.Ok? && u.password.None? ==> r.value.password == admins[id].password)
      && AdminsConsistent(admins')
  {
    if id in admins {
      var row := AdminOverlay(admins[id], u, hash);
      if !(UsernameElsewhere(admins, id, row.username) || ContactElsewhere(admins, id, row.emailPhone)) {
        RewriteKeepsConsistent(admins, id, row);
      }
    }
  }

  /** Rewriting admin `id` with a row no other admin clashes with keeps
      the table consistent. */
  lemma RewriteKeepsConsistent(admins: Admins, id: int, row: Admin)
    requires AdminsConsistent(admins) && id in admins && row.adminId == id
    requires !UsernameElsewhere(admins, id, row.username) && !ContactElsewhere(admins, id, row.emailPhone)
    ensures AdminsConsistent(admins[id := row])
  {
  }

  /** create_technical_account checks in the order username, phone among
      technical accounts, phone among admin contacts, and creates the
      account only when all three are free. */
  lemma CreateTechnicalChecks(admins: Admins, techs: Technicals, id: int, hash: string -> string, t: TechnicalCreate)
    ensures var r := CreateTechnicalOutcome(admins, techs, id, hash, t).0;
      && ((UsernameTaken(admins, t.username) || TechnicalUsernameTaken(techs, t.username))
            ==> r == Err(Http(409, "Username taken.")))
      && ((!UsernameTaken(admins, t.username) && !TechnicalUsernameTaken(techs, t.username)
           && PhoneTaken(techs, t.phoneNumber))
            ==> r == Err(Http(409, "Phone number linked to another Technical account.")))
      && ((!UsernameTaken(admins, t.username) && !TechnicalUsernameTaken(techs, t.username)
           && !PhoneTaken(techs, t.phoneNumber) && ContactTaken(admins, t.phoneNumber))
            ==> r == Err(Http(409, "Phone number linked to an Admin account.")))
      && (r.Ok? <==> TechnicalRefusal(admins, techs, t).None? && id !in techs)
  {
  }

  /** create_technical_account writes nothing when it refuses, stores the
      new account under its id, and keeps technical usernames and phones
      unique. */
  lemma CreateTechnicalKeeps(admins: Admins, techs: Technicals, id: int, hash: string -> string, t: TechnicalCreate)
    requires TechnicalsUnique(techs)
    ensures var (r, techs') := CreateTechnicalOutcome(admins, techs, id, hash, t);
      && (r.Err? ==> techs' == techs)
      && (r.Ok? ==> techs' == techs[id := r.value] && r.value == NewTechnical(id, t, hash))
      && TechnicalsUnique(techs')
  {
    if !TechnicalUsernameTaken(techs, t.username) && !PhoneTaken(techs, t.phoneNumber) && id !in techs {
      TechnicalInsertKeepsUnique(techs, NewTechnical(id, t, hash));
    }
  }

  /** Adding a technical account with a fresh id, a free username and a
      free phone keeps usernames and phones unique. */
  lemma TechnicalInsertKeepsUnique(techs: Technicals, row: Technical)
    requires TechnicalsUnique(techs) && row.technicalId !in techs
    requires !TechnicalUsernameTaken(techs, row.username) && !PhoneTaken(techs, row.phoneNumber)
    ensures TechnicalsUnique(techs[row.technicalId := row])
  {
  }

  /** The username check runs one way only: create_admin does not look at
      the technical table, so an admin can take a technical account's
      username; once an admin holds it, create_technical_account refuses
      it. */
  lemma UsernameCheckOneWay(admins: Admins, techs: Technicals, adminId: int, techId: int, hash: string -> string,
                            a: AdminCreate, t: TechnicalCreate)
    requires TechnicalUsernameTaken(techs, a.username) && t.username == a.username
    requires !UsernameTaken(admins, a.username) && !ContactTaken(admins, a.emailPhone) && adminId !in admins
    ensures var (r, admins') := CreateAdminOutcome(admins, adminId, hash, a);
      && r.Ok?
      && CreateTechnicalOutcome(admins', map[], techId, hash, t).0 == Err(Http(409, "Username taken."))
  {
    var admins' := admins[adminId := NewAdmin(adminId, a, hash)];
    assert admins'[adminId].username == a.username;
  }

  /** The admin store. */
  class AdminRepository {
    var admins: Admins

    ghost predicate Valid()
      reads this
    {
      AdminsConsistent(admins)
    }

    constructor ()
      ensures Valid() && admins == map[]
    {
      admins := map[];
    }

    /** get_by_id. */
    method GetById(id: int) returns (r: Option<Admin>)
      ensures r.Some? <==> id in admins
      ensures r.Some? ==> r.value == admins[id]
    {
      if id in admins {
        r := Some(admins[id]);
      } else {
        r := None;
      }
    }

    /** get_by_username: the only admin with that username. */
    method GetByUsername(username: string) returns (r: Option<Admin>)
      requires Valid()
      ensures r.Some? <==> UsernameTaken(admins, username)
      ensures r.Some? ==> r.value.adminId in admins && admins[r.value.adminId] == r.value && r.value.username == username
    {
      if k :| k in admins && admins[k].username == username {
        r := Some(admins[k]);
      } else {
        r := None;
      }
    }

    /** get_by_email_phone: a stored admin with that contact. */
    method GetByEmailPhone(contact: string) returns (r: Option<Admin>)
      requires Valid()
      ensures r.Some? <==> ContactTaken(admins, contact)
      ensures r.Some? ==> r.value.adminId in admins && admins[r.value.adminId] == r.value
                          && r.value.emailPhone == Some(contact)
    {
      if k :| k in admins && admins[k].emailPhone == Some(contact) {
        r := Some(admins[k]);
      } else {
        r := None;
      }
    }

    /** create: the row with the hashed password and role "admin" is added
        and committed; the database refuses a duplicate key. */
    method Create(id: int, a: AdminCreate, hashedPassword: string) returns (r: Result<Admin>)
      requires Valid()
      modifies this
      ensures Valid()
      ensures var row := Admin(id, a.username, hashedPassword, "admin", Some(a.emailPhone));
        if id !in old(admins) && !UsernameTaken(old(admins), a.username) && !ContactTaken(old(admins), a.emailPhone)
        then r == Ok(row) && admins == old(admins)[id := row]
        else r == Err(CommitRejected) && admins == old(admins)
    {
      var row := Admin(id, a.username, hashedPassword, "admin", Some(a.emailPhone));
      if id in admins || UsernameTaken(admins, a.username) || ContactTaken(admins, a.emailPhone) {
        return Err(CommitRejected);
      }
      InsertKeepsConsistent(admins, row);
      admins := admins[id := row];
      r := Ok(row);
    }

    /** update: every key of `data` that names an attribute is assigned,
        then the row is committed. */
    method Update(id: int, data: map<string, string>) returns (r: Result<Admin>)
      requires Valid() && id in admins
      modifies this
      ensures Valid()
      ensures var row := Assigned(old(admins)[id], data);
        if !UsernameElsewhere(old(admins), id, row.username) && !ContactElsewhere(old(admins), id, row.emailPhone)
        then r == Ok(row) && admins == old(admins)[id := row]
        else r == Err(CommitRejected) && admins == old(admins)
    {
      var row := Assigned(admins[id], data);
      if UsernameElsewhere(admins, id, row.username) || ContactElsewhere(admins, id, row.emailPhone) {
        return Err(CommitRejected);
      }
      RewriteKeepsConsistent(admins, id, row);
      admins := admins[id := row];
      r := Ok(row);
    }
  }

  /** setattr for each key of `data` that is a string attribute of the
      row; other keys are skipped. */
  function Assigned(row: Admin, data: map<string, string>): (r: Admin)
    ensures r.adminId == row.adminId
    ensures r.username == if "username" in data then data["username"] else row.username
    ensures r.password == if "password" in data then data["password"] else row.password
    ensures r.role == if "role" in data then data["role"] else row.role
    ensures r.emailPhone == if "email_phone" in data then Some(data["email_phone"]) else row.emailPhone
  {
    Admin(row.adminId,
          if "username" in data then data["username"] else row.username,
          if "password" in data then data["password"] else row.password,
          if "role" in data then data["role"] else row.role,
          if "email_phone" in data then Some(data["email_phone"]) else row.emailPhone)
  }

  /** The technical store. */
  class TechnicalRepository {
    var technicals: Technicals

    ghost predicate Valid()
      reads this
    {
      TechnicalsKeyed(technicals)
    }

    constructor ()
      ensures Valid() && technicals == map[]
    {
      technicals := map[];
    }

    /** get_by_username: a stored account with that username. */
    method GetByUsername(username: string) returns (r: Option<Technical>)
      requires Valid()
      ensures r.Some? <==> TechnicalUsernameTaken(technicals, username)
      ensures r.Some? ==> r.value.technicalId in technicals && technicals[r.value.technicalId] == r.value
                          && r.value.username == username
    {
      if k :| k in technicals && technicals[k].username == username {
        r := Some(technicals[k]);
      } else {
        r := None;
      }
    }

    /** get_by_phone_number: a stored account with that phone number. */
    method GetByPhoneNumber(phone: string) returns (r: Option<Technical>)
      requires Valid()
      ensures r.Some? <==> PhoneTaken(technicals, phone)
      ensures r.Some? ==> r.value.technicalId in technicals && technicals[r.value.technicalId] == r.value
                          && r.value.phoneNumber == phone
    {
      if k :| k in technicals && technicals[k].phoneNumber == phone {
        r := Some(technicals[k]);
      } else {
        r := None;
      }
    }

    /** create: the row with the hashed password takes the column defaults
        role "technical" and status free. */
    method Create(id: int, t: TechnicalCreate, hashedPassword: string) returns (r: Result<Technical>)
      requires Valid()
      modifies this
      ensures Valid()
      ensures var row := Technical(id, t.username, hashedPassword, t.name, t.phoneNumber, "technical", Free);
        if id !in old(technicals)
        then r == Ok(row) && technicals == old(technicals)[id := row]
        else r == Err(CommitRejected) && technicals == old(technicals)
    {
      if id in technicals {
        return Err(CommitRejected);
      }
      var row := Technical(id, t.username, hashedPassword, t.name, t.phoneNumber, "technical", Free);
      technicals := technicals[id := row];
      r := Ok(row);
    }
  }

  class AdminController {
    const adminRepo: AdminRepository
    const techRepo: TechnicalRepository
    const hash: string -> string
    const verify: (string, string) -> bool

    ghost predicate Valid()
      reads this, adminRepo, techRepo
    {
      adminRepo.Valid() && techRepo.Valid()
    }

    constructor (adminRepo: AdminRepository, techRepo: TechnicalRepository, hash: string -> string,
                 verify: (string, string) -> bool)
      requires adminRepo.Valid() && techRepo.Valid()
      ensures this.adminRepo == adminRepo && this.techRepo == techRepo && this.hash == hash && this.verify == verify
      ensures Valid()
    {
      this.adminRepo, this.techRepo, this.hash, this.verify := adminRepo, techRepo, hash, verify;
    }

    /** authentication_admin: the admin with that username when the
        password checks against its hash, None otherwise. */
    method AuthenticationAdmin(username: string, password: string) returns (r: Option<Admin>)
      requires Valid()
      ensures r.Some? <==> exists k :: k in adminRepo.admins && adminRepo.admins[k].username == username
                                       && verify(password, adminRepo.admins[k].password)
      ensures r.Some? ==> r.value.adminId in adminRepo.admins && adminRepo.admins[r.value.adminId] == r.value
                          && r.value.username == username
    {
      var admin := adminRepo.GetByUsername(username);
      if admin.None? {
        return None;
      }
      if !verify(password, admin.value.password) {
        return None;
      }
      r := admin;
    }

    /** get_admin_by_id. */
    method GetAdminById(id: int) returns (r: Result<Admin>)
      ensures r.Ok? <==> id in adminRepo.admins
      ensures r.Ok? ==> r.value == adminRepo.admins[id]
      ensures r.Err? ==> r.error == Http(404, "Admin not found")
    {
      var admin := adminRepo.GetById(id);
      if admin.None? {
        return Err(Http(404, "Admin not found"));
      }
      r := Ok(admin.value);
    }

    /** create_admin, with `id` the uuid4 the new row draws. */
    method CreateAdmin(id: int, a: AdminCreate) returns (r: Result<Admin>)
      requires Valid()
      modifies adminRepo
      ensures Valid()
      ensures (r, adminRepo.admins) == CreateAdminOutcome(old(adminRepo.admins), id, hash, a)
    {
      var byName := adminRepo.GetByUsername(a.username);
      if byName.Some? {
        return Err(Http(409, "Username already taken."));
      }
      var byContact := adminRepo.GetByEmailPhone(a.emailPhone);
      if byContact.Some? {
        return Err(Http(409, "Email/Phone already in use."));
      }
      var hashed := hash(a.password);
      r := adminRepo.Create(id, a, hashed);
    }

    /** update_admin: the request's set fields become the update data, a
        password among them is replaced by its hash. */
    method UpdateAdmin(id: int, u: AdminUpdate) returns (r: Result<Admin>)
      requires Valid()
      modifies adminRepo
      ensures Valid()
      ensures (r, adminRepo.admins) == UpdateAdminOutcome(old(adminRepo.admins), id, hash, u)
    {
      var admin := GetAdminById(id);
      if admin.Err? {
        return Err(admin.error);
      }
      var data: map<string, string> := map[];
      if u.username.Some? {
        data := data["username" := u.username.value];
      }
      if u.password.Some? {
        data := data["password" := u.password.value];
      }
      if u.emailPhone.Some? {
        data := data["email_phone" := u.emailPhone.value];
      }
      if "password" in data {
        data := data["password" := hash(data["password"])];
      }
      assert Assigned(admin.value, data) == AdminOverlay(admin.value, u, hash);
      r := adminRepo.Update(id, data);
    }

    /** create_technical_account, with `id` the new account's key. */
    method CreateTechnicalAccount(id: int, t: TechnicalCreate) returns (r: Result<Technical>)
      requires Valid()
      modifies techRepo
      ensures Valid()
      ensures (r, techRepo.technicals) == CreateTechnicalOutcome(adminRepo.admins, old(techRepo.technicals), id, hash, t)
    {
      var adminByName := adminRepo.GetByUsername(t.username);
      if adminByName.Some? {
        return Err(Http(409, "Username taken."));
      }
      var techByName := techRepo.GetByUsername(t.username);
      if techByName.Some? {
        return Err(Http(409, "Username taken."));
      }
      var techByPhone := techRepo.GetByPhoneNumber(t.phoneNumber);
      if techByPhone.Some? {
        return Err(Http(409, "Phone number linked to another Technical account."));
      }
      var adminByPhone := adminRepo.GetByEmailPhone(t.phoneNumber);
      if adminByPhone.Some? {
        return Err(Http(409, "Phone number linked to an Admin account."));
      }
      var hashed := hash(t.password);
      r := techRepo.Create(id, t, hashed);
    }
  }
}
