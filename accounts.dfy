/**
 * Accounts in backend/app.py: the two spellings of the administrator check and
 * the validation that `/signup` performs before it stores a user.
 */
module Accounts {
  import opened Wrappers
  import opened Text

  /** The configured administrator password (`admin_password`). */
  const AdminPassword: string := "admin"

  /** The gate of add, edit and delete book and of the admin loan list: `account.lower() == 'admin'`. */
  predicate IsAdmin(account: string) {
    Lower(account) == "admin"
  }

  /** The gate of `return_book`, which compares without lower-casing: `account == 'admin'`. */
  predicate IsExactAdmin(account: string) {
    account == "admin"
  }

  /** The lower-casing gate admits exactly the five-letter spellings of "admin" in any mix of cases. */
  lemma IsAdminSpec(account: string)
    ensures IsAdmin(account) <==>
      |account| == 5 && forall i :: 0 <= i < 5 ==> account[i] == "admin"[i] || account[i] == "ADMIN"[i]
  {
    if IsAdmin(account) {
      forall i | 0 <= i < 5
        ensures account[i] == "admin"[i] || account[i] == "ADMIN"[i]
      {
        assert LowerChar(account[i]) == "admin"[i];
      }
    }
    if |account| == 5 && forall i :: 0 <= i < 5 ==> account[i] == "admin"[i] || account[i] == "ADMIN"[i] {
      forall i | 0 <= i < 5
        ensures Lower(account)[i] == "admin"[i]
      {
        assert account[i] == "admin"[i] || account[i] == "ADMIN"[i];
      }
    }
  }

  /** Every account the exact gate admits passes the lower-casing gate, but not the other way round. */
  lemma AdminGatesDiffer()
    ensures forall a :: IsExactAdmin(a) ==> IsAdmin(a)
    ensures IsAdmin("Admin") && !IsExactAdmin("Admin")
  {
    assert Lower("admin") == "admin";
    assert Lower("Admin") == "admin";
  }

  /** A row of the `Users` table. The bcrypt hash of the password is not modelled. */
  datatype User = User(username: string, email: string, city: string, age: string, account: string)

  datatype SignupError =
    | InvalidInput            // 400 'Invalid input'
    | AdminPasswordIncorrect  // 400 'Admin password is incorrect'
    | AccountMissing          // 500: `account.lower()` on a missing account raises
    | CreateFailed            // 500 'Failed to create user': a NOT NULL column left empty

  datatype SignupResult = Accepted(user: User) | Rejected(error: SignupError)

  /** 201 for a stored user, 400 for the two refusals the handler answers itself, 500 when storing fails. */
  function SignupStatus(r: SignupResult): (s: int)
    ensures s == 201 <==> r.Accepted?
    ensures s == 400 <==> r.Rejected? && (r.error == InvalidInput || r.error == AdminPasswordIncorrect)
    ensures s == 500 <==> r.Rejected? && (r.error == AccountMissing || r.error == CreateFailed)
  {
    match r
    case Accepted(_) => 201
    case Rejected(InvalidInput) => 400
    case Rejected(AdminPasswordIncorrect) => 400
    case Rejected(_) => 500
  }

  /** `data.get(key)` on the JSON body. */
  function Get(data: map<string, string>, key: string): Option<string> {
    if key in data then Some(data[key]) else None
  }

  /** A field is truthy in Python when it is present and not the empty string. */
  predicate Present(data: map<string, string>, key: string) {
    key in data && data[key] != ""
  }

  /** The checks of `/signup`, in their order, and the user it would store. */
  function ValidateSignup(data: map<string, string>): (r: SignupResult)
    ensures !Present(data, "email") || !Present(data, "password") ==> r == Rejected(InvalidInput)
    ensures Present(data, "email") && Present(data, "password") && "account" in data
            && IsAdmin(data["account"]) && Get(data, "admin_pass") != Some(AdminPassword)
            ==> r == Rejected(AdminPasswordIncorrect)
    ensures r.Accepted? <==>
      && Present(data, "email") && Present(data, "password")
      && "account" in data
      && (IsAdmin(data["account"]) ==> Get(data, "admin_pass") == Some(AdminPassword))
      && "username" in data && "city" in data && "age" in data
    ensures r.Accepted? ==>
      r.user.email == data["email"] && r.user.account == data["account"] && r.user.username == data["username"]
  {
    if !Present(data, "email") || !Present(data, "password") then Rejected(InvalidInput)
    else if "account" !in data then Rejected(AccountMissing)
    else if IsAdmin(data["account"]) && Get(data, "admin_pass") != Some(AdminPassword) then
      Rejected(AdminPasswordIncorrect)
    else if "username" !in data || "city" !in data || "age" !in data then Rejected(CreateFailed)
    else Accepted(User(data["username"], data["email"], data["city"], data["age"], data["account"]))
  }
}
