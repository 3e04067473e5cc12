/** Registration (`/api/register`): the field checks made before anything is
    written, and the user record that is inserted. */
module Accounts {
  import opened Tables

  /** The columns of a user row, without the password hash. */
  datatype User = User(fullName: string, nationalId: string, mobile: string,
                       address: string, termsAccepted: bool)

  datatype RegisterError = BadNationalId | BadPassword | TermsNotAccepted | UserExists

  /** The first validation rule the request breaks, if any: the national id
      must have 14 characters, then the password 6, then the terms must be
      accepted. */
  function ValidationError(nationalId: string, password: string, termsAccepted: bool): (r: Option<RegisterError>)
    ensures r == None <==> |nationalId| == 14 && |password| == 6 && termsAccepted
    ensures r == Some(BadNationalId) <==> |nationalId| != 14
    ensures r == Some(BadPassword) <==> |nationalId| == 14 && |password| != 6
    ensures r == Some(TermsNotAccepted) <==> |nationalId| == 14 && |password| == 6 && !termsAccepted
  {
    if |nationalId| != 14 then Some(BadNationalId)
    else if |password| != 6 then Some(BadPassword)
    else if !termsAccepted then Some(TermsNotAccepted)
    else None
  }

  /** The user insert is rejected when the national id is already registered. */
  predicate NationalIdTaken(users: map<UserId, User>, nationalId: string)
  {
    exists u :: u in users && users[u].nationalId == nationalId
  }
}
