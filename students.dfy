/** The student record of GroupCalculator/Student.py: four string fields
    filled from keyword arguments, a validator that accepts exactly `str`,
    and the two string renderings. */
module Students {
  import opened Groups

  datatype Student = Student(name: string, lastName: string, email: string, username: string)

  /** A Python value passed as a keyword argument: an exact `str`, an
      instance of a subclass of `str`, or any other object together with
      its truth value. */
  datatype Value = Str(text: string) | StrSubclass(text: string) | NonStr(truthy: bool)

  /** Message of the ValueError raised by the validator. */
  const NotAStringMessage: string := "It must be a string"

  /** The four keyword names the constructor reads ('username', not the
      'user_name' its documentation names). */
  const NameKey: string := "name"
  const LastNameKey: string := "last_name"
  const EmailKey: string := "email"
  const UsernameKey: string := "username"

  /** Python truthiness: the falsy values are exactly the empty `str`, an
      empty `str` subclass instance and an object whose truth value is false. */
  predicate Truthy(v: Value)
    ensures !Truthy(v) <==> v == Str("") || v == StrSubclass("") || v == NonStr(false)
  {
    match v
    case Str(s) => s != []
    case StrSubclass(s) => s != []
    case NonStr(t) => t
  }

  /** `_validator_str`: accepts a value whose type is exactly `str` and
      returns it unchanged; anything else, a `str` subclass included, is a
      ValueError. */
  function ValidateStr(v: Value): (r: Result<string>)
    ensures r.Ok? <==> v.Str?
    ensures r.Ok? ==> r.value == v.text
    ensures r.Err? ==> r.error == ValueError(NotAStringMessage)
  {
    if v.Str? then Ok(v.text) else Err(ValueError(NotAStringMessage))
  }

  /** `kwargs.get(key) or ""`: the argument when present and truthy, else
      the empty string. */
  function Argument(kwargs: map<string, Value>, key: string): (v: Value)
    ensures (key !in kwargs || !Truthy(kwargs[key])) <==> v == Str("")
    ensures key in kwargs && Truthy(kwargs[key]) ==> v == kwargs[key]
  {
    if key in kwargs && Truthy(kwargs[key]) then kwargs[key] else Str("")
  }

  /** The field value the constructor stores for `key` when it accepts it. */
  function FieldText(kwargs: map<string, Value>, key: string): string
  {
    match Argument(kwargs, key)
    case Str(t) => t
    case StrSubclass(t) => t
    case NonStr(_) => ""
  }

  /** Whether the constructor accepts the argument given for `key`: it is
      missing, falsy, or an exact `str`. */
  predicate Accepts(kwargs: map<string, Value>, key: string)
  {
    key !in kwargs || !Truthy(kwargs[key]) || kwargs[key].Str?
  }

  /** `Student(**kwargs)`: validates the four fields in order; the first
      rejected one raises. */
  function NewStudent(kwargs: map<string, Value>): (r: Result<Student>)
    ensures r.Ok? <==> Accepts(kwargs, NameKey) && Accepts(kwargs, LastNameKey)
                       && Accepts(kwargs, EmailKey) && Accepts(kwargs, UsernameKey)
    ensures r.Err? ==> r.error == ValueError(NotAStringMessage)
    ensures r.Ok? ==> r.value == Student(FieldText(kwargs, NameKey), FieldText(kwargs, LastNameKey),
                                         FieldText(kwargs, EmailKey), FieldText(kwargs, UsernameKey))
  {
    var name := ValidateStr(Argument(kwargs, NameKey));
    if name.Err? then Err(name.error) else
    var lastName := ValidateStr(Argument(kwargs, LastNameKey));
    if lastName.Err? then Err(lastName.error) else
    var email := ValidateStr(Argument(kwargs, EmailKey));
    if email.Err? then Err(email.error) else
    var username := ValidateStr(Argument(kwargs, UsernameKey));
    if username.Err? then Err(username.error) else
    Ok(Student(name.value, lastName.value, email.value, username.value))
  }

  /** The keyword arguments GroupDatabaseCSV passes for one CSV row. */
  function CellArguments(name: string, lastName: string, email: string, username: string): map<string, Value>
  {
    map[NameKey := Str(name), LastNameKey := Str(lastName), EmailKey := Str(email), UsernameKey := Str(username)]
  }

  /** Four string cells always make a student, and each field is its cell
      (an empty cell is falsy and becomes "" all the same). */
  lemma CellsMakeStudent(name: string, lastName: string, email: string, username: string)
    ensures NewStudent(CellArguments(name, lastName, email, username))
         == Ok(Student(name, lastName, email, username))
  {
    var kwargs := CellArguments(name, lastName, email, username);
    assert FieldText(kwargs, NameKey) == name;
    assert FieldText(kwargs, LastNameKey) == lastName;
    assert FieldText(kwargs, EmailKey) == email;
    assert FieldText(kwargs, UsernameKey) == username;
  }

  /** A value given under the documented key 'user_name' is ignored: the
      username field stays empty. */
  lemma UserNameKeyIgnored(s: string)
    ensures NewStudent(map["user_name" := Str(s)]) == Ok(Student("", "", "", ""))
  {
    var kwargs := map["user_name" := Str(s)];
    assert UsernameKey !in kwargs && NameKey !in kwargs && LastNameKey !in kwargs && EmailKey !in kwargs;
  }

  /** A truthy non-string argument is rejected, a falsy one defaults. */
  lemma NonStringArguments(key: string)
    requires key in {NameKey, LastNameKey, EmailKey, UsernameKey}
    ensures NewStudent(map[key := NonStr(true)]).Err?
    ensures NewStudent(map[key := NonStr(false)]) == Ok(Student("", "", "", ""))
  {
  }

  /** `str(student)`: first name, one space, last name. */
  function ToStr(s: Student): (r: string)
    ensures |r| == |s.name| + 1 + |s.lastName|
    ensures r[..|s.name|] == s.name && r[|s.name|] == ' ' && r[|s.name| + 1..] == s.lastName
  {
    s.name + " " + s.lastName
  }

  /** `repr(student)`: the four fields, in declaration order, each after its
      keyword. */
  function Repr(s: Student): (r: string)
    ensures |r| == |s.name| + |s.lastName| + |s.email| + |s.username| + 45
    ensures r[..13] == "Student(name=" && r[|r| - 1] == ')'
    ensures var n, l, e := |s.name|, |s.lastName|, |s.email|;
      && r[13..13 + n] == s.name
      && r[13 + n..25 + n] == ", last_name="
      && r[25 + n..25 + n + l] == s.lastName
      && r[25 + n + l..33 + n + l] == ", email="
      && r[33 + n + l..33 + n + l + e] == s.email
      && r[33 + n + l + e..44 + n + l + e] == ", username="
      && r[44 + n + l + e..|r| - 1] == s.username
  {
    "Student(name=" + s.name + ", last_name=" + s.lastName + ", email=" + s.email
      + ", username=" + s.username + ")"
  }
}
