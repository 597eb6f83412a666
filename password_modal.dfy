/**
 * The password dialog: entering a password to view or to edit, the first
 * setup of the two passwords, changing them, and the reset on opening.
 * `hasPassword`, `validatePassword` and `setPassword` belong to a store
 * outside this model: their answers come in as inputs, `Failure` standing
 * for a call that throws.
 */
module PasswordModal {
  import opened Wrappers
  import opened Strings

  datatype Mode = View | Edit

  const EnterPassword: string := "请输入密码"
  const WrongPassword: string := "密码错误"
  const ValidationFailed: string := "密码验证失败"
  const EnterBoth: string := "请输入查看密码和编辑密码"
  const TooShort: string := "密码长度不能少于4位"
  const SetFailed: string := "密码设置失败"
  const EnterCurrent: string := "请输入当前编辑密码"
  const EnterNewBoth: string := "请输入新的查看密码和编辑密码"
  const WrongCurrent: string := "当前编辑密码错误"
  const Changed: string := "密码修改成功"
  const ChangeFailed: string := "密码修改失败"

  /** The shortest password accepted, in UTF-16 code units of the untrimmed text. */
  const MinLength: nat := 4

  /**
   * The checks on a new pair of passwords: neither may be blank, and each
   * must be at least four code units long before trimming. `blankMessage`
   * is the dialog's wording for the first check.
   */
  function CheckNewPasswords(view: string, edit: string, blankMessage: string): (r: Outcome)
    ensures r == Pass <==> !IsBlank(view) && !IsBlank(edit) && Utf16Length(view) >= MinLength && Utf16Length(edit) >= MinLength
    ensures r.Fail? && (IsBlank(view) || IsBlank(edit)) ==> r.error == blankMessage
    ensures r.Fail? && !IsBlank(view) && !IsBlank(edit) ==> r.error == TooShort
  {
    if IsBlank(view) || IsBlank(edit) then Fail(blankMessage)
    else if Utf16Length(view) < MinLength || Utf16Length(edit) < MinLength then Fail(TooShort)
    else Pass
  }

  /** Spaces alone never make a password, however many there are. */
  lemma WhitespaceRejected(view: string, edit: string, blankMessage: string)
    requires Trim(view) == ""
    ensures CheckNewPasswords(view, edit, blankMessage) == Fail(blankMessage)
  {
    TrimEmptyIffBlank(view);
  }

  /** The two passwords may be the same: nothing compares them. */
  lemma SamePasswordAccepted(p: string)
    requires !IsBlank(p) && |p| >= MinLength
    ensures CheckNewPasswords(p, p, EnterBoth) == Pass
  {
  }

  /**
   * The length counts the white space around the text: " ab " passes,
   * though only two characters are left once it is trimmed.
   */
  lemma PaddedShortPasswordAccepted()
    ensures CheckNewPasswords(" ab ", " ab ", EnterBoth) == Pass
  {
    var p := " ab ";
    assert p[1] == 'a';
  }

  class Dialog {
    var isFirstTimeSetup: bool
    var mode: Mode
    var showPassword: bool
    var password: string
    var viewPassword: string
    var editPassword: string
    var error: string
    var isSettingMode: bool
    /** The pair last handed to `setPassword` that the store accepted. */
    var stored: Option<(string, string)>

    /** Every form field at its initial value. */
    ghost predicate Blank()
      reads this
    {
      mode == View && !showPassword && password == "" && viewPassword == "" && editPassword == ""
      && error == "" && !isSettingMode
    }

    constructor()
      ensures Blank() && !isFirstTimeSetup && stored == None
    {
      isFirstTimeSetup := false;
      mode := View;
      showPassword := false;
      password := "";
      viewPassword := "";
      editPassword := "";
      error := "";
      isSettingMode := false;
      stored := None;
    }

    /** `resetState()`: every form field back to its initial value. */
    method ResetState()
      modifies this`mode, this`showPassword, this`password, this`viewPassword, this`editPassword,
        this`error, this`isSettingMode
      ensures Blank()
    {
      mode := View;
      showPassword := false;
      password := "";
      viewPassword := "";
      editPassword := "";
      error := "";
      isSettingMode := false;
    }

    /** Opening: first-time setup exactly when no password is stored yet, and a blank form. */
    method Open(hasPassword: bool)
      modifies this`isFirstTimeSetup, this`mode, this`showPassword, this`password, this`viewPassword,
        this`editPassword, this`error, this`isSettingMode
      ensures isFirstTimeSetup == !hasPassword && Blank()
    {
      isFirstTimeSetup := !hasPassword;
      ResetState();
    }

    /**
     * `handleValidatePassword()`: a blank entry is refused without asking
     * the store; otherwise the store's verdict on the password in the
     * current mode decides. On success the caller learns whether edit mode
     * was granted, and the dialog closes.
     */
    method HandleValidatePassword(validate: (string, Mode) -> Result<bool>) returns (validated: Option<bool>, closed: bool)
      modifies this`error
      ensures IsBlank(password) ==> error == EnterPassword && validated == None && !closed
      ensures !IsBlank(password) ==>
        var answer := validate(password, mode);
        && (answer == Success(true) ==> validated == Some(mode == Edit) && closed && error == "")
        && (answer == Success(false) ==> validated == None && !closed && error == WrongPassword)
        && (answer.Failure? ==> validated == None && !closed && error == ValidationFailed)
    {
      error := "";
      validated, closed := None, false;
      if IsBlank(password) {
        error := EnterPassword;
        return;
      }
      var answer := validate(password, mode);
      if answer.Failure? {
        error := ValidationFailed;
      } else if answer.value {
        validated, closed := Some(mode == Edit), true;
      } else {
        error := WrongPassword;
      }
    }

    /**
     * `handleSetFirstPassword()`: both passwords must pass the checks;
     * then they are stored together and the dialog closes, unless the
     * store fails.
     */
    method HandleSetFirstPassword(setOk: bool) returns (passwordSet: bool)
      modifies this`error, this`stored
      ensures var check := CheckNewPasswords(viewPassword, editPassword, EnterBoth);
        && (check.Fail? ==> !passwordSet && error == check.error && stored == old(stored))
        && (check == Pass && setOk ==> passwordSet && error == "" && stored == Some((viewPassword, editPassword)))
        && (check == Pass && !setOk ==> !passwordSet && error == SetFailed && stored == old(stored))
    {
      error := "";
      var check := CheckNewPasswords(viewPassword, editPassword, EnterBoth);
      if check.Fail? {
        error := check.error;
        return false;
      }
      if setOk {
        stored := Some((viewPassword, editPassword));
        passwordSet := true;
      } else {
        error := SetFailed;
        passwordSet := false;
      }
    }

    /**
     * `handleChangePassword()`: the current password must be given and the
     * new pair pass the checks; the current password is then checked as
     * the edit password, and only then is the new pair stored, which ends
     * setting mode.
     */
    method HandleChangePassword(validate: (string, Mode) -> Result<bool>, setOk: bool) returns (changed: bool)
      modifies this`error, this`stored, this`isSettingMode
      ensures IsBlank(password) ==> !changed && error == EnterCurrent && stored == old(stored)
      ensures !IsBlank(password) && CheckNewPasswords(viewPassword, editPassword, EnterNewBoth).Fail? ==>
        !changed && error == CheckNewPasswords(viewPassword, editPassword, EnterNewBoth).error && stored == old(stored)
      ensures !IsBlank(password) && CheckNewPasswords(viewPassword, editPassword, EnterNewBoth) == Pass ==>
        var answer := validate(password, Edit);
        && (answer.Failure? ==> !changed && error == ChangeFailed && stored == old(stored))
        && (answer == Success(false) ==> !changed && error == WrongCurrent && stored == old(stored))
        && (answer == Success(true) && !setOk ==> !changed && error == ChangeFailed && stored == old(stored))
        && (answer == Success(true) && setOk ==>
              changed && error == Changed && !isSettingMode && stored == Some((viewPassword, editPassword)))
      ensures !changed ==> isSettingMode == old(isSettingMode)
    {
      error := "";
      changed := false;
      if IsBlank(password) {
        error := EnterCurrent;
        return;
      }
      var check := CheckNewPasswords(viewPassword, editPassword, EnterNewBoth);
      if check.Fail? {
        error := check.error;
        return;
      }
      var answer := validate(password, Edit);
      if answer.Failure? {
        error := ChangeFailed;
      } else if !answer.value {
        error := WrongCurrent;
      } else if !setOk {
        error := ChangeFailed;
      } else {
        stored := Some((viewPassword, editPassword));
        isSettingMode := false;
        error := Changed;
        changed := true;
      }
    }
  }
}
