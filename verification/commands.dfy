/** The command registry: a command keeps its optional arguments and its
    required (positional) arguments in declaration order, rejects duplicate
    keys at registration, and looks arguments up by long name or by name. */
module Commands {
  import opened Results
  import opened Keys
  import opened Arguments

  /** A command with its name, description and the two argument registries. */
  datatype Command<V> = Command(name: string, desc: string,
                                optionals: seq<OptionalSpec<V>>,
                                required: seq<RequiredSpec<V>>)

  /** Why a registration was refused (the source throws `std::runtime_error`). */
  datatype RegisterError =
    | DuplicateOptional(short: char, long: string)
    | DuplicateRequired(name: string)

  /** The command after a registration attempt and what the attempt returned:
      a handle (an index) on success, or the error. */
  datatype Registration<V, H> = Registration(command: Command<V>, outcome: Result<H, RegisterError>)

  /** The short characters of `opts`, in registration order. */
  function Shorts<V>(opts: seq<OptionalSpec<V>>): (r: seq<char>)
    ensures |r| == |opts| && forall i :: 0 <= i < |opts| ==> r[i] == opts[i].short
  {
    seq(|opts|, i requires 0 <= i < |opts| => opts[i].short)
  }

  /** The long names of `opts`, in registration order. */
  function Longs<V>(opts: seq<OptionalSpec<V>>): (r: seq<string>)
    ensures |r| == |opts| && forall i :: 0 <= i < |opts| ==> r[i] == opts[i].long
  {
    seq(|opts|, i requires 0 <= i < |opts| => opts[i].long)
  }

  /** The names of `args`, in declaration order. */
  function Names<V>(args: seq<RequiredSpec<V>>): (r: seq<string>)
    ensures |r| == |args| && forall i :: 0 <= i < |args| ==> r[i] == args[i].name
  {
    seq(|args|, i requires 0 <= i < |args| => args[i].name)
  }

  /** The registry invariant: no two optionals share a short character, no
      two share a long name, and no two required arguments share a name. */
  predicate WellFormed<V>(c: Command<V>) {
    && Distinct(Shorts(c.optionals))
    && Distinct(Longs(c.optionals))
    && Distinct(Names(c.required))
  }

  /** Some registered optional has the short character `s` or the long name `l`. */
  predicate ClashesOptional<V>(c: Command<V>, s: char, l: string) {
    exists i :: 0 <= i < |c.optionals| && (c.optionals[i].short == s || c.optionals[i].long == l)
  }

  /** `c'` is `c` with one optional appended at the end: name, description,
      earlier optionals and the required registry are untouched. */
  ghost predicate AppendsOptional<V>(c: Command<V>, c': Command<V>) {
    && c'.name == c.name && c'.desc == c.desc
    && c'.required == c.required
    && |c'.optionals| == |c.optionals| + 1
    && c'.optionals[..|c.optionals|] == c.optionals
  }

  /** `c'` is `c` with one required argument appended at the end: name,
      description, earlier required arguments and the optionals are untouched. */
  ghost predicate AppendsRequired<V>(c: Command<V>, c': Command<V>) {
    && c'.name == c.name && c'.desc == c.desc
    && c'.optionals == c.optionals
    && |c'.required| == |c.required| + 1
    && c'.required[..|c.required|] == c.required
  }

  /** A command as constructed: both registries empty. */
  function NewCommand<V>(name: string, desc: string): (c: Command<V>)
    ensures c.name == name && c.desc == desc
    ensures |c.optionals| == 0 && |c.required| == 0
    ensures WellFormed(c)
  {
    Command(name, desc, [], [])
  }

  /** Registers an optional argument. It is refused when any registered
      optional has the same short character or the same long name; otherwise
      it is appended and its index is the handle returned. */
  function AddOptional<V>(c: Command<V>, o: OptionalSpec<V>): (r: Registration<V, nat>)
    ensures r.outcome.Failure? <==> ClashesOptional(c, o.short, o.long)
    ensures r.outcome.Failure? ==> r.command == c && r.outcome.error == DuplicateOptional(o.short, o.long)
    ensures r.outcome.Success? ==>
              && AppendsOptional(c, r.command)
              && r.outcome.value == |c.optionals|
              && r.command.optionals[r.outcome.value] == o
    ensures WellFormed(c) ==> WellFormed(r.command)
  {
    if o.short in Shorts(c.optionals) || o.long in Longs(c.optionals) then
      Registration(c, Failure(DuplicateOptional(o.short, o.long)))
    else
      var opts := c.optionals + [o];
      Registration(c.(optionals := opts), Success(|c.optionals|))
  }

  /** Registers a required argument. It is refused when a required argument
      with the same name exists; otherwise it is appended, so declaration
      order is kept. The source returns nothing on success. */
  function AddRequired<V>(c: Command<V>, a: RequiredSpec<V>): (r: Registration<V, ()>)
    ensures r.outcome.Failure? <==> exists i :: 0 <= i < |c.required| && c.required[i].name == a.name
    ensures r.outcome.Failure? ==> r.command == c && r.outcome.error == DuplicateRequired(a.name)
    ensures r.outcome.Success? ==>
              && AppendsRequired(c, r.command)
              && r.command.required[|c.required|] == a
    ensures WellFormed(c) ==> WellFormed(r.command)
  {
    if a.name in Names(c.required) then
      Registration(c, Failure(DuplicateRequired(a.name)))
    else
      var args := c.required + [a];
      Registration(c.(required := args), Success(()))
  }

  /** `add_opt_flag`: registers a flag under `s` and `l`. */
  function AddOptFlag<V>(c: Command<V>, s: char, l: string, d: string): (r: Registration<V, nat>)
    ensures r.outcome.Failure? <==> ClashesOptional(c, s, l)
    ensures r.outcome.Failure? ==> r.command == c
    ensures r.outcome.Success? ==> AppendsOptional(c, r.command) && r.outcome.value == |c.optionals|
    ensures WellFormed(c) ==> WellFormed(r.command)
    ensures r.outcome.Success? ==> r.command.optionals[r.outcome.value] == OptionalSpec(s, l, d, Flag)
  {
    AddOptional(c, OptionalSpec(s, l, d, Flag))
  }

  /** `add_opt_value`: registers an optional value argument, initially absent. */
  function AddOptValue<V>(c: Command<V>, s: char, l: string, d: string): (r: Registration<V, nat>)
    ensures r.outcome.Failure? <==> ClashesOptional(c, s, l)
    ensures r.outcome.Failure? ==> r.command == c
    ensures r.outcome.Success? ==> AppendsOptional(c, r.command) && r.outcome.value == |c.optionals|
    ensures WellFormed(c) ==> WellFormed(r.command)
    ensures r.outcome.Success? ==>
              var o := r.command.optionals[r.outcome.value];
              o.short == s && o.long == l && o.desc == d && o.kind.Data? && o.kind.holder.Value?
              && GetValue(o.kind.holder) == None
  {
    AddOptional(c, OptionalSpec(s, l, d, Data(NewValue())))
  }

  /** `add_opt_list`: registers an optional list argument, initially empty. */
  function AddOptList<V>(c: Command<V>, s: char, l: string, d: string): (r: Registration<V, nat>)
    ensures r.outcome.Failure? <==> ClashesOptional(c, s, l)
    ensures r.outcome.Failure? ==> r.command == c
    ensures r.outcome.Success? ==> AppendsOptional(c, r.command) && r.outcome.value == |c.optionals|
    ensures WellFormed(c) ==> WellFormed(r.command)
    ensures r.outcome.Success? ==>
              var o := r.command.optionals[r.outcome.value];
              o.short == s && o.long == l && o.desc == d && o.kind.Data? && o.kind.holder.List?
              && GetValues(o.kind.holder) == []
  {
    AddOptional(c, OptionalSpec(s, l, d, Data(NewList())))
  }

  /** `add_req_list` taking a short character: despite its name it registers
      an optional list argument and leaves the required registry alone. */
  function AddReqListShort<V>(c: Command<V>, s: char, l: string, d: string): (r: Registration<V, nat>)
    ensures r.command.required == c.required
    ensures r.outcome.Failure? <==> ClashesOptional(c, s, l)
    ensures r.outcome.Failure? ==> r.command == c
    ensures r.outcome.Success? ==> AppendsOptional(c, r.command) && r.outcome.value == |c.optionals|
    ensures WellFormed(c) ==> WellFormed(r.command)
    ensures r.outcome.Success? ==>
              var o := r.command.optionals[r.outcome.value];
              o.short == s && o.long == l && o.desc == d && o.kind.Data? && o.kind.holder.List?
              && GetValues(o.kind.holder) == []
  {
    AddOptList(c, s, l, d)
  }

  /** `add_req_value`: registers a required value argument, initially absent. */
  function AddReqValue<V>(c: Command<V>, n: string, d: string): (r: Registration<V, ()>)
    ensures r.outcome.Failure? <==> n in Names(c.required)
    ensures r.outcome.Failure? ==> r.command == c
    ensures r.outcome.Success? ==> AppendsRequired(c, r.command)
    ensures WellFormed(c) ==> WellFormed(r.command)
    ensures r.outcome.Success? ==>
              var a := r.command.required[|c.required|];
              a.name == n && a.desc == d && a.holder.Value? && GetValue(a.holder) == None
  {
    AddRequired(c, RequiredSpec(n, d, NewValue()))
  }

  /** `add_req_list`: registers a required list argument, initially empty. */
  function AddReqList<V>(c: Command<V>, n: string, d: string): (r: Registration<V, ()>)
    ensures r.outcome.Failure? <==> n in Names(c.required)
    ensures r.outcome.Failure? ==> r.command == c
    ensures r.outcome.Success? ==> AppendsRequired(c, r.command)
    ensures WellFormed(c) ==> WellFormed(r.command)
    ensures r.outcome.Success? ==>
              var a := r.command.required[|c.required|];
              a.name == n && a.desc == d && a.holder.List? && GetValues(a.holder) == []
  {
    AddRequired(c, RequiredSpec(n, d, NewList()))
  }

  /** Index of the first registered optional whose long name is `l`. The
      source aborts when there is none, so a match is required. */
  function GetOptional<V>(c: Command<V>, l: string): (i: nat)
    requires exists j :: 0 <= j < |c.optionals| && c.optionals[j].long == l
    ensures i < |c.optionals| && c.optionals[i].long == l
    ensures forall j :: 0 <= j < i ==> c.optionals[j].long != l
    ensures WellFormed(c) ==> forall j :: 0 <= j < |c.optionals| && c.optionals[j].long == l ==> j == i
  {
    assert l in Longs(c.optionals);
    IndexOf(Longs(c.optionals), l)
  }

  /** Index of the first required argument whose name is `n`. The source
      aborts when there is none, so a match is required. */
  function GetRequired<V>(c: Command<V>, n: string): (i: nat)
    requires exists j :: 0 <= j < |c.required| && c.required[j].name == n
    ensures i < |c.required| && c.required[i].name == n
    ensures forall j :: 0 <= j < i ==> c.required[j].name != n
    ensures WellFormed(c) ==> forall j :: 0 <= j < |c.required| && c.required[j].name == n ==> j == i
  {
    assert n in Names(c.required);
    IndexOf(Names(c.required), n)
  }

  /** After a successful registration, looking the new optional up by its
      long name yields the handle the registration returned, and every
      earlier long name still resolves to the same entry as before. */
  lemma AddThenGetOptional<V>(c: Command<V>, o: OptionalSpec<V>)
    requires AddOptional(c, o).outcome.Success?
    ensures GetOptional(AddOptional(c, o).command, o.long) == AddOptional(c, o).outcome.value
    ensures forall j :: 0 <= j < |c.optionals| ==>
              GetOptional(AddOptional(c, o).command, c.optionals[j].long) == GetOptional(c, c.optionals[j].long)
  {
  }

  /** After a successful registration, looking the new required argument up
      by name yields the last position, and every earlier name still
      resolves to the same position as before. */
  lemma AddThenGetRequired<V>(c: Command<V>, a: RequiredSpec<V>)
    requires AddRequired(c, a).outcome.Success?
    ensures GetRequired(AddRequired(c, a).command, a.name) == |c.required|
    ensures forall j :: 0 <= j < |c.required| ==>
              GetRequired(AddRequired(c, a).command, c.required[j].name) == GetRequired(c, c.required[j].name)
  {
  }
}
