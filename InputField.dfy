/**
 * The text-input widget: which controls it shows, the type and disabled
 * flag of the rendered input, the message line, and its one piece of
 * local state, whether a password is shown in clear.
 */
module InputField {
  import opened Wrappers

  /**
   * The property set that decides behaviour. An absent `helperText` or
   * `errorMessage` is the empty string (both are falsy); `hasOnClear` says
   * whether the caller supplied the clear callback. `readOnly` is only
   * forwarded to the input element.
   */
  datatype InputProps = InputProps(
    value: string,
    helperText: string,
    errorMessage: string,
    disabled: bool,
    invalid: bool,
    loading: bool,
    clearable: bool,
    inputType: string,
    hasOnClear: bool,
    readOnly: bool)

  /** The property set with every optional property left at its default. */
  function DefaultInputProps(): (p: InputProps)
    ensures p.value == "" && p.inputType == "text"
    ensures !p.disabled && !p.invalid && !p.loading && !p.clearable && !p.readOnly
  {
    InputProps("", "", "", false, false, false, false, "text", false, false)
  }

  predicate IsPassword(p: InputProps) {
    p.inputType == "password"
  }

  /** The rendered input refuses edits: disabled, or busy loading. */
  predicate InputDisabled(p: InputProps): (off: bool)
    ensures p.disabled ==> off
    ensures p.loading ==> off
    ensures off ==> p.disabled || p.loading
  {
    p.disabled || p.loading
  }

  /**
   * The clear button is rendered: the field is clearable, holds text and
   * accepts edits.
   */
  predicate ClearButtonVisible(p: InputProps): (shown: bool)
    ensures shown ==> p.clearable && |p.value| > 0 && !InputDisabled(p)
    ensures p.clearable && |p.value| > 0 && !InputDisabled(p) ==> shown
  {
    p.clearable && p.value != "" && !p.disabled && !p.loading
  }

  /**
   * The show/hide password button is rendered: only on a password field
   * that is not disabled, and there a click does change the rendered type.
   */
  predicate PasswordToggleVisible(p: InputProps): (shown: bool)
    ensures shown ==> EffectiveType(p, false) == "password" && EffectiveType(p, true) == "text"
    ensures shown ==> !p.disabled
    ensures IsPassword(p) && !p.disabled ==> shown
  {
    IsPassword(p) && !p.disabled
  }

  /** The `type` attribute of the rendered input. */
  function EffectiveType(p: InputProps, showPassword: bool): (t: string)
    ensures t == "text" || t == p.inputType
    ensures !IsPassword(p) ==> t == p.inputType
    ensures IsPassword(p) ==> (t == "text" <==> showPassword)
  {
    if IsPassword(p) && showPassword then "text" else p.inputType
  }

  /** The text of the message line, None when the line is not rendered. */
  function Message(p: InputProps): (m: Option<string>)
    ensures m.Some? <==> p.helperText != "" || p.errorMessage != ""
    ensures m.Some? ==> m.value != ""
    ensures p.errorMessage != "" ==> m == Some(p.errorMessage)
    ensures p.errorMessage == "" && p.helperText != "" ==> m == Some(p.helperText)
  {
    if p.errorMessage != "" then Some(p.errorMessage)
    else if p.helperText != "" then Some(p.helperText)
    else None
  }

  /** The input points at the message line exactly when the line is rendered. */
  predicate DescribedByMessage(p: InputProps) {
    p.helperText != "" || p.errorMessage != ""
  }

  lemma DescribedByIffMessage(p: InputProps)
    ensures DescribedByMessage(p) <==> Message(p).Some?
  {
  }

  /** `readOnly` has no effect on the clear button or the password toggle. */
  lemma ReadOnlyIgnored(p: InputProps, readOnly: bool)
    ensures ClearButtonVisible(p.(readOnly := readOnly)) == ClearButtonVisible(p)
    ensures PasswordToggleVisible(p.(readOnly := readOnly)) == PasswordToggleVisible(p)
    ensures InputDisabled(p.(readOnly := readOnly)) == InputDisabled(p)
  {
  }

  /**
   * A loading input is disabled and hides the clear button, yet keeps the
   * password toggle.
   */
  lemma LoadingEffects(p: InputProps)
    requires p.loading
    ensures InputDisabled(p) && !ClearButtonVisible(p)
    ensures PasswordToggleVisible(p) <==> IsPassword(p) && !p.disabled
  {
  }

  class InputField {
    /** The properties of the latest render. */
    var props: InputProps
    /** `showPassword`, initially false. */
    var showPassword: bool

    constructor (p: InputProps)
      ensures props == p && !showPassword
      ensures EffectiveType(props, showPassword) == p.inputType
    {
      props := p;
      showPassword := false;
    }

    /** A later render with new properties keeps `showPassword`. */
    method Rerender(p: InputProps)
      modifies this`props
      ensures props == p
    {
      props := p;
    }

    /**
     * A click on the password toggle, which is only there to click when it
     * is rendered.
     */
    method TogglePassword()
      requires PasswordToggleVisible(props)
      modifies this`showPassword
      ensures showPassword == !old(showPassword)
      ensures EffectiveType(props, showPassword) == (if showPassword then "text" else "password")
    {
      showPassword := !showPassword;
    }

    /**
     * A click on the clear button: calls the clear callback when there is
     * one, and changes nothing itself; clearing the value is the caller's
     * business. The result says whether the callback was called.
     */
    method HandleClear() returns (calledOnClear: bool)
      ensures calledOnClear <==> props.hasOnClear
    {
      calledOnClear := props.hasOnClear;
    }
  }

  /** Two toggle clicks restore the original state. */
  method ToggleTwice(f: InputField)
    requires PasswordToggleVisible(f.props)
    modifies f
    ensures f.showPassword == old(f.showPassword) && f.props == old(f.props)
  {
    f.TogglePassword();
    f.TogglePassword();
  }
}
