/** Frontend/forgotPassword.tsx: `handleResetPassword`, the new-password
    form. Two guards, then one request and, right after it, the success
    alert, which does not wait for the server's answer. */
module ResetPasswordForm {
  import opened Wrappers
  import opened Text
  import opened LoginScreen

  const BothRequired := ShowAlert("Error", Some("Both fields are required."))
  const Mismatch := ShowAlert("Error", Some("Passwords do not match."))
  const ResetDone := ShowAlert("Success", Some("Password reset successfully!"))

  /** The effects of one press of the button, in order: one or two, always
      ending in an alert; the only other effect is the request carrying
      the new password. */
  function HandleResetPassword(newPassword: string, confirmPassword: string): (effects: seq<Effect>)
    ensures 1 <= |effects| <= 2 && effects[|effects| - 1].ShowAlert?
    ensures forall i :: 0 <= i < |effects| && !effects[i].ShowAlert? ==>
      effects[i] == PostRequest(Host + "/users/updatePassword", "password", newPassword)
  {
    if newPassword == "" || confirmPassword == "" then [BothRequired]
    else if newPassword != confirmPassword then [Mismatch]
    else [PostRequest(Host + "/users/updatePassword", "password", newPassword), ResetDone]
  }

  predicate IsRequest(e: Effect) {
    e.PostRequest?
  }

  /** The requests among `effects`. */
  function Requests(effects: seq<Effect>): seq<Effect> {
    Filter(effects, IsRequest)
  }

  /** Exactly one request, carrying the new password, is made when both
      fields are filled in and equal; otherwise none is. */
  lemma ResetRequest(newPassword: string, confirmPassword: string)
    ensures Requests(HandleResetPassword(newPassword, confirmPassword))
      == if newPassword != "" && newPassword == confirmPassword
         then [PostRequest(Host + "/users/updatePassword", "password", newPassword)]
         else []
  {
    var effects := HandleResetPassword(newPassword, confirmPassword);
    if newPassword != "" && newPassword == confirmPassword {
      var request := effects[0];
      assert effects == [request] + [ResetDone];
      FilterAppend([request], [ResetDone], IsRequest);
      FilterPush([], request, IsRequest);
      FilterPush([], ResetDone, IsRequest);
    } else {
      FilterPush([], effects[0], IsRequest);
    }
  }

  /** An empty field is reported before a mismatch is: the mismatch alert
      appears only for two filled-in fields. */
  lemma ResetGuardOrder(newPassword: string, confirmPassword: string)
    ensures newPassword == "" || confirmPassword == "" ==>
      HandleResetPassword(newPassword, confirmPassword) == [BothRequired]
    ensures Mismatch in HandleResetPassword(newPassword, confirmPassword) <==>
      newPassword != "" && confirmPassword != "" && newPassword != confirmPassword
  {
  }

  /** Whenever the request goes out the success alert follows it at once,
      before and whatever the server answers; without a request there is
      no success alert. */
  lemma ResetSuccessUnconditional(newPassword: string, confirmPassword: string)
    ensures var effects := HandleResetPassword(newPassword, confirmPassword);
      ResetDone in effects <==> Requests(effects) != []
    ensures var effects := HandleResetPassword(newPassword, confirmPassword);
      Requests(effects) != [] ==> |effects| == 2 && IsRequest(effects[0]) && effects[1] == ResetDone
  {
    ResetRequest(newPassword, confirmPassword);
  }
}
