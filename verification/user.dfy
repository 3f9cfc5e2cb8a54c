/** The `User` entity (table `voip_users`).

    The entity class as written declares only `id`, `name` and `extension`, yet
    the mapper, the security details and the repository read and write a
    `username` and a `password` on it. The model therefore uses one record that
    carries all five; every reference field is nullable, hence an `Option`. */
module UserEntity {

  import opened Wrappers
  import JavaText

  const MinLong: int := -0x8000_0000_0000_0000
  const MaxLong: int := 0x7FFF_FFFF_FFFF_FFFF

  /** A Java `long` */
  type Long = x: int | MinLong <= x <= MaxLong

  /** Two's-complement wrap-around of an integer into the `long` range. */
  function WrapLong(x: int): (r: Long)
    ensures MinLong <= x <= MaxLong ==> r == x
    ensures (r - x) % 0x1_0000_0000_0000_0000 == 0
  {
    (x - MinLong) % 0x1_0000_0000_0000_0000 + MinLong
  }

  datatype User = User(
    id: Option<Long>,
    username: Option<string>,
    password: Option<string>,
    name: Option<string>,
    extension: Option<string>
  )

  /** `new User()`: every field null. */
  function NewUser(): (u: User)
    ensures u.id.None? && u.username.None? && u.password.None?
    ensures u.name.None? && u.extension.None?
  {
    User(None, None, None, None, None)
  }

  /** `new User(id, name, extension)` */
  function NewUserWithId(id: Option<Long>, name: Option<string>, extension: Option<string>): (u: User)
    ensures u.id == id && u.name == name && u.extension == extension
    ensures u.username.None? && u.password.None?
  {
    User(id, None, None, name, extension)
  }

  /** `new User(name, extension)`: the id is left unassigned. */
  function NewUserWithoutId(name: Option<string>, extension: Option<string>): (u: User)
    ensures u.id.None?
    ensures u.name == name && u.extension == extension
    ensures u.username.None? && u.password.None?
  {
    User(None, None, None, name, extension)
  }

  // Setters: each replaces exactly one field.

  function SetId(u: User, id: Option<Long>): (r: User)
    ensures r.id == id
    ensures r == u.(id := r.id)
  {
    u.(id := id)
  }

  function SetUsername(u: User, username: Option<string>): (r: User)
    ensures r.username == username
    ensures r == u.(username := r.username)
  {
    u.(username := username)
  }

  function SetPassword(u: User, password: Option<string>): (r: User)
    ensures r.password == password
    ensures r == u.(password := r.password)
  {
    u.(password := password)
  }

  function SetName(u: User, name: Option<string>): (r: User)
    ensures r.name == name
    ensures r == u.(name := r.name)
  {
    u.(name := name)
  }

  function SetExtension(u: User, extension: Option<string>): (r: User)
    ensures r.extension == extension
    ensures r == u.(extension := r.extension)
  {
    u.(extension := extension)
  }

  /** `%s` and `%d` print a null reference as "null". */
  function ShowNullable(s: Option<string>): string
  {
    if s.Some? then s.value else "null"
  }

  function ShowId(id: Option<Long>): string
  {
    if id.Some? then JavaText.ShowInt(id.value) else "null"
  }

  const ToStringHead := "Customer[id="
  const ToStringName := ", name='"
  const ToStringExtension := "', extension='"
  const ToStringTail := "']"

  /** `toString()`: `Customer[id=<id>, name='<name>', extension='<extension>']`;
      username and password never appear. */
  function ToString(u: User): (s: string)
    ensures JavaText.StartsWith(s, ToStringHead)
    ensures |s| >= |ToStringTail| && s[|s| - |ToStringTail|..] == ToStringTail
  {
    Render(ShowId(u.id), ShowNullable(u.name), ShowNullable(u.extension))
  }

  /** The format string with its three arguments already rendered. */
  function Render(id: string, name: string, ext: string): string
  {
    ToStringHead + id + ToStringName + name + ToStringExtension + ext + ToStringTail
  }

  /** The id text of `toString()` reads back as the id itself. */
  lemma ToStringShowsId(u: User)
    requires u.id.Some?
    ensures var s := ToString(u);
            var idText := ShowId(u.id);
            && s[|ToStringHead|..|ToStringHead| + |idText|] == idText
            && JavaText.ParseInt(idText) == u.id.value
  {
    RenderKeepsFields(ShowId(u.id), ShowNullable(u.name), ShowNullable(u.extension));
    JavaText.ParseShowInt(u.id.value);
  }

  /** The part of `a + b + c` after `a` and before `c` is `b`. */
  lemma Between(a: string, b: string, c: string)
    ensures (a + b + c)[|a|..|a| + |b|] == b
  {
    assert forall i :: 0 <= i < |b| ==> (a + b + c)[|a| + i] == b[i];
  }

  /** Each argument of the format string can be cut back out of the text at
      its offset. */
  lemma {:induction false} RenderKeepsFields(id: string, name: string, ext: string)
    ensures var s := Render(id, name, ext);
            var o := |ToStringHead| + |id| + |ToStringName|;
            var p := o + |name| + |ToStringExtension|;
            && |s| == p + |ext| + |ToStringTail|
            && s[|ToStringHead|..|ToStringHead| + |id|] == id
            && s[o..o + |name|] == name
            && s[p..p + |ext|] == ext
  {
    var beforeName := ToStringHead + id + ToStringName;
    var beforeExt := beforeName + name + ToStringExtension;
    Between(beforeName, name, ToStringExtension + ext + ToStringTail);
    assert Render(id, name, ext) == beforeName + name + (ToStringExtension + ext + ToStringTail);
    Between(beforeExt, ext, ToStringTail);
    Between(ToStringHead, id, ToStringName + name + ToStringExtension + ext + ToStringTail);
    assert Render(id, name, ext) == ToStringHead + id + (ToStringName + name + ToStringExtension + ext + ToStringTail);
  }

  /** The rest of `toString()`: after the id comes the name between `, name='`
      and `'`, then the extension up to the closing `']`; a null field shows as
      "null". */
  lemma ToStringShowsFields(u: User)
    ensures var name := ShowNullable(u.name);
            var o := |ToStringHead| + |ShowId(u.id)| + |ToStringName|;
            && ToString(u)[o..o + |name|] == name
            && (u.name.Some? ==> name == u.name.value) && (u.name.None? ==> name == "null")
    ensures var ext := ShowNullable(u.extension);
            var o := |ToStringHead| + |ShowId(u.id)| + |ToStringName| + |ShowNullable(u.name)| + |ToStringExtension|;
            && ToString(u)[o..o + |ext|] == ext
            && |ToString(u)| == o + |ext| + |ToStringTail|
            && (u.extension.Some? ==> ext == u.extension.value) && (u.extension.None? ==> ext == "null")
    ensures u.id.None? ==> ToString(u)[|ToStringHead|..|ToStringHead| + 4] == "null"
  {
    RenderKeepsFields(ShowId(u.id), ShowNullable(u.name), ShowNullable(u.extension));
  }
}
