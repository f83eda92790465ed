/**
 * The generic form hook (src/hooks/useForm.ts): the `values`, `errors`,
 * `touched` and `isSubmitting` cells, the change/blur/file handlers, the
 * validation effect, `resetForm` and `handleSubmit`. Field values are
 * strings keyed by field name, as every form of the dashboard has them.
 */
module UseForm {
  import opened Types

  type Values = map<string, string>
  type Errors = map<string, string>
  type Touched = map<string, bool>

  /** The `reduce` over `Object.keys(values)`: every field of the form, marked touched. */
  function AllTouched(values: Values): (touched: Touched)
    ensures touched.Keys == values.Keys
    ensures forall k :: k in touched ==> touched[k]
  {
    map k | k in values :: true
  }

  class FormController {
    const initialValues: Values
    const validate: Values -> Errors
    var values: Values
    var errors: Errors
    var touched: Touched
    var isSubmitting: bool

    /** The first render, followed by the validation effect's first run. */
    constructor (initialValues: Values, validate: Values -> Errors)
      ensures this.initialValues == initialValues && this.validate == validate
      ensures values == initialValues && errors == validate(initialValues)
      ensures touched == map[] && !isSubmitting
    {
      this.initialValues := initialValues;
      this.validate := validate;
      values := initialValues;
      errors := map[];
      touched := map[];
      isSubmitting := false;
      new;
      errors := validate(values);
    }

    /** The effect on `[values, validate]`: `errors` becomes the validation of the current values. */
    method ValidationEffect()
      modifies this`errors
      ensures errors == validate(values)
    {
      errors := validate(values);
    }

    /** `handleChange`: only the named field changes; the new values object re-runs the validation effect. */
    method HandleChange(name: string, value: string)
      modifies this`values, this`errors
      ensures values == old(values)[name := value]
      ensures forall k :: k in old(values) && k != name ==> k in values && values[k] == old(values)[k]
      ensures errors == validate(values)
    {
      values := values[name := value];
      ValidationEffect();
    }

    /** `handleBlur`: the named field is marked touched, the other marks stay. */
    method HandleBlur(name: string)
      modifies this`touched
      ensures touched == old(touched)[name := true]
      ensures forall k :: k in old(touched) && k != name ==> k in touched && touched[k] == old(touched)[k]
    {
      touched := touched[name := true];
    }

    /**
     * The completion of the file read started by `handleFileChange`: the data
     * URL is stored into the values captured when the file was chosen
     * (`snapshot`), so edits made during the read are overwritten.
     */
    method FileLoaded(snapshot: Values, name: string, dataUrl: string)
      modifies this`values, this`errors
      ensures values == snapshot[name := dataUrl]
      ensures errors == validate(values)
    {
      values := snapshot[name := dataUrl];
      ValidationEffect();
    }

    /** `resetForm`. */
    method ResetForm()
      modifies this`values, this`errors, this`touched, this`isSubmitting
      ensures values == initialValues && errors == map[] && touched == map[] && !isSubmitting
    {
      values := initialValues;
      errors := map[];
      touched := map[];
      isSubmitting := false;
    }

    /**
     * `handleSubmit(onSubmit)`, given how the `onSubmit` promise settles.
     * Every field is marked touched and the errors recomputed; `onSubmit` is
     * called with the current values only when there is no error; the form
     * resets when it resolves; a rejection is logged and swallowed.
     */
    method HandleSubmit(onSubmitRejects: bool) returns (submitted: Option<Values>)
      modifies this`values, this`errors, this`touched, this`isSubmitting
      ensures submitted == if validate(old(values)) == map[] then Some(old(values)) else None
      ensures !isSubmitting
      ensures submitted.Some? && !onSubmitRejects ==>
                values == initialValues && errors == map[] && touched == map[]
      ensures submitted.None? || onSubmitRejects ==>
                values == old(values) && errors == validate(old(values)) && touched == AllTouched(old(values))
    {
      isSubmitting := true;
      var validationErrors := validate(values);
      errors := validationErrors;
      touched := AllTouched(values);
      submitted := None;
      if |validationErrors| == 0 {
        submitted := Some(values);
        if !onSubmitRejects {
          ResetForm();
        }
      }
      isSubmitting := false;
    }
  }
}
