/**
 Request fields as the service receives them, and the field-level checks the
 create and update handlers share: JavaScript falsiness ("missing field"),
 the inclusive age range and the role enumeration.

 A JSON body field is either absent (`None`) or present with a value. JSON
 `null`, non-string names and string ages are outside this model: names,
 emails and roles are strings, ages are integers.
 */
module Fields {

  datatype Option<+T> = None | Some(value: T)

  /** The inclusive age bounds checked by `age < 18 || age > 65`. */
  const MinAge: int := 18
  const MaxAge: int := 65

  /** The three roles of `validRoles`, in the order the source lists them. */
  const ValidRoles: seq<string> := ["admin", "editor", "viewer"]

  /** `if (s)` on a string field: absent and the empty string are falsy. */
  predicate IsTruthyString(s: Option<string>) {
    s.Some? && s.value != ""
  }

  /** `if (n)` on a number field: absent and zero are falsy. */
  predicate IsTruthyNumber(n: Option<int>) {
    n.Some? && n.value != 0
  }

  /** The negation of `age < 18 || age > 65`. */
  predicate IsValidAge(age: int) {
    !(age < MinAge || age > MaxAge)
  }

  /** `validRoles.includes(role)`: strict string equality with one of the three roles. */
  predicate IsValidRole(role: string) {
    role in ValidRoles
  }
}
