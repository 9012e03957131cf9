/**
 * The session side of the router controller: `login` marks the Express
 * session as logged in and keeps the router credentials, `changeLoginDetails`
 * replaces the kept password once the router reports success, and `logout`
 * discards the session.
 *
 * The browser is abstracted away: `login` receives the URL the page landed
 * on after the router's login form was submitted, and `changeLoginDetails`
 * receives what the router's account page showed after "Apply".
 */
module RouterSession {
  import opened Wrappers
  import opened Http

  datatype Credentials = Credentials(username: string, password: string)

  /** Text of the `.success-message` and of the `.error-message` element of the account page, when present. */
  datatype AccountPage = AccountPage(successMessage: Option<string>, errorMessage: Option<string>)

  const MissingCredentialsMessage: string := "Enter username and password"
  const LoginSuccessMessage: string := "Login successful"
  const LoginFailedMessage: string := "Login failed, please try again."
  const InvalidInputMessage: string := "Invalid input"
  const ChangedMessage: string := "Login details changed successfully"
  const ChangeFailedMessage: string := "Failed to change login details"
  const WifiPasswordIncorrectMessage: string := "Current WiFi password is incorrect"
  const WifiPasswordChangedMessage: string := "WiFi password changed successfully"

  /** The page the router shows after a successful login: `http://<ROUTER_IP>/index.asp`. */
  function SuccessUrl(routerIp: string): string {
    "http://" + routerIp + "/index.asp"
  }

  /** The only response of `login` that changes the session. */
  predicate LoginAccepted(r: Response) {
    r == Json(true, LoginSuccessMessage)
  }

  /**
   * What `login` answers: a blank username or password is turned away with an
   * unsuccessful JSON body before the browser is used; otherwise the login
   * succeeds exactly when the browser landed on the success URL, and fails
   * with a 401 error when it did not.
   */
  function LoginResponse(username: string, password: string, routerIp: string, landedUrl: string): (r: Response)
    ensures LoginAccepted(r) <==> username != "" && password != "" && landedUrl == SuccessUrl(routerIp)
    ensures username == "" || password == "" ==> r == Json(false, MissingCredentialsMessage)
    ensures r.Thrown? <==> username != "" && password != "" && landedUrl != SuccessUrl(routerIp)
    ensures r.Thrown? ==> r == Thrown(401, LoginFailedMessage)
  {
    if username == "" || password == "" then Json(false, MissingCredentialsMessage)
    else if landedUrl == SuccessUrl(routerIp) then Json(true, LoginSuccessMessage)
    else Thrown(401, LoginFailedMessage)
  }

  /** `text || fallback`: a missing or empty text gives way to the fallback. */
  function TextOr(text: Option<string>, fallback: string): (r: string)
    ensures text.Some? && text.value != "" ==> r == text.value
    ensures text.None? || text.value == "" ==> r == fallback
  {
    if text.Some? && text.value != "" then text.value else fallback
  }

  /** `result.message`: the success text when there is one, else the error text, else nothing. */
  function PageMessage(page: AccountPage): (m: Option<string>)
    ensures m.Some? <==> page.successMessage.Some? || page.errorMessage.Some?
    ensures page.successMessage.Some? ==> m == page.successMessage
    ensures m.Some? && m != page.successMessage ==> m == page.errorMessage && page.successMessage.None?
  {
    if page.successMessage.Some? then page.successMessage else page.errorMessage
  }

  /**
   * `changeLoginDetails` AS WRITTEN: the express-validator chains it declares
   * (non-empty fields, confirmation equal to the new password) are never run,
   * so the server's own decision is read off the router's account page.
   */
  function ChangeResponseAsWritten(currentPassword: string, newPassword: string, confirmPassword: string,
                                   page: AccountPage): (r: Response)
    ensures r.Json? <==> page.successMessage.Some?
    ensures r.Json? ==> r.success && r.message != ""
    ensures r.Thrown? ==> r.statusCode == 400 && r.message != ""
  {
    if page.successMessage.Some? then Json(true, TextOr(PageMessage(page), ChangedMessage))
    else Thrown(400, TextOr(PageMessage(page), ChangeFailedMessage))
  }

  /** The checks `changeLoginDetails` declares: every field non-empty and the confirmation equal to the new password. */
  predicate ChangeRequestValid(currentPassword: string, newPassword: string, confirmPassword: string)
    ensures ChangeRequestValid(currentPassword, newPassword, confirmPassword) <==>
              currentPassword != "" && newPassword != "" && confirmPassword == newPassword
  {
    currentPassword != "" && newPassword != "" && confirmPassword != "" && confirmPassword == newPassword
  }

  /**
   * `changeLoginDetails` with its declared validation applied: an invalid
   * request is refused with a 400 "Invalid input" error before the router is
   * touched, and a valid one is answered from the router's account page.
   */
  function ChangeResponse(currentPassword: string, newPassword: string, confirmPassword: string,
                          page: AccountPage): (r: Response)
    ensures confirmPassword != newPassword ==> r == Thrown(400, InvalidInputMessage)
    ensures r.Json? <==> ChangeRequestValid(currentPassword, newPassword, confirmPassword) && page.successMessage.Some?
    ensures ChangeRequestValid(currentPassword, newPassword, confirmPassword) ==>
              r == ChangeResponseAsWritten(currentPassword, newPassword, confirmPassword, page)
  {
    if !ChangeRequestValid(currentPassword, newPassword, confirmPassword) then Thrown(400, InvalidInputMessage)
    else ChangeResponseAsWritten(currentPassword, newPassword, confirmPassword, page)
  }

  /**
   * As written, a confirmation that differs from the new password is not
   * refused by the server: with the router showing a success message the
   * request succeeds, whereas the declared check refuses it.
   */
  lemma MismatchedConfirmationAcceptedAsWritten()
    ensures ChangeResponseAsWritten("admin", "Secret1", "Secret2", AccountPage(Some("OK"), None)).Json?
    ensures ChangeResponse("admin", "Secret1", "Secret2", AccountPage(Some("OK"), None)) == Thrown(400, InvalidInputMessage)
  {
  }

  /**
   * As written, for a given router account page, the server's own decision
   * on a change of login details does not depend on the confirmation.
   */
  lemma AsWrittenIgnoresConfirmation(currentPassword: string, newPassword: string, confirm1: string, confirm2: string,
                                     page: AccountPage)
    ensures ChangeResponseAsWritten(currentPassword, newPassword, confirm1, page) ==
            ChangeResponseAsWritten(currentPassword, newPassword, confirm2, page)
  {
  }

  /**
   * `changeWifiPassword` once the page is read: the current password given
   * must equal the value of the router's Wi-Fi password field.
   */
  function WifiPasswordResponse(fieldValue: string, currentPassword: string): (r: Response)
    ensures r.Json? <==> fieldValue == currentPassword
    ensures r.Json? ==> r.success
    ensures r.Thrown? ==> r.statusCode == 401
  {
    if fieldValue != currentPassword then Thrown(401, WifiPasswordIncorrectMessage)
    else Json(true, WifiPasswordChangedMessage)
  }

  /** The Express session: `req.session.isLoggedIn` and `req.session.routerCredentials`. */
  class Session {
    var isLoggedIn: bool
    var routerCredentials: Option<Credentials>

    /** A logged-in session always has credentials to log the browser in with. */
    ghost predicate Valid()
      reads this
    {
      isLoggedIn ==> routerCredentials.Some?
    }

    /** A fresh session: not logged in, no credentials. */
    constructor ()
      ensures Valid() && !isLoggedIn && routerCredentials == None
    {
      isLoggedIn := false;
      routerCredentials := None;
    }

    /** `login`: only a landing on the success URL logs the session in and stores the credentials. */
    method Login(username: string, password: string, routerIp: string, landedUrl: string) returns (r: Response)
      requires Valid()
      modifies this
      ensures Valid()
      ensures r == LoginResponse(username, password, routerIp, landedUrl)
      ensures LoginAccepted(r) ==> isLoggedIn && routerCredentials == Some(Credentials(username, password))
      ensures !LoginAccepted(r) ==> isLoggedIn == old(isLoggedIn) && routerCredentials == old(routerCredentials)
    {
      r := LoginResponse(username, password, routerIp, landedUrl);
      if LoginAccepted(r) {
        isLoggedIn := true;
        routerCredentials := Some(Credentials(username, password));
      }
    }

    /**
     * `changeLoginDetails` (behind the authentication check of its route),
     * with its declared validation applied: on success only the stored
     * password changes, to the new one; otherwise nothing changes.
     */
    method ChangeLoginDetails(currentPassword: string, newPassword: string, confirmPassword: string,
                              page: AccountPage) returns (r: Response)
      requires Valid() && isLoggedIn
      modifies this
      ensures Valid() && isLoggedIn
      ensures r == ChangeResponse(currentPassword, newPassword, confirmPassword, page)
      ensures r.Json? ==> routerCredentials == Some(Credentials(old(routerCredentials).value.username, newPassword))
      ensures !r.Json? ==> routerCredentials == old(routerCredentials)
    {
      r := ChangeResponse(currentPassword, newPassword, confirmPassword, page);
      if r.Json? {
        routerCredentials := Some(routerCredentials.value.(password := newPassword));
      }
    }

    /** `logout`: the session is destroyed, so the next request starts logged out. */
    method Logout()
      modifies this
      ensures Valid() && !isLoggedIn && routerCredentials == None
    {
      isLoggedIn := false;
      routerCredentials := None;
    }
  }
}
