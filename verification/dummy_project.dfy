/** The command line the test helpers build to generate the dummy application: the
    default options, merged with the test's own options, serialised after
    `<bin> create dummy_app`. The bin path is taken as given. */
module DummyProject {
  import opened RubyHash
  import opened Text
  import opened Arguments

  /** The application name every generated test project gets. */
  const AppName: string := "dummy_app"

  /** The options every dummy project is created with unless a test overrides them. */
  function DefaultArguments(): (d: Options)
    ensures |d| == 9
    ensures forall i :: 0 <= i < |d| ==> d[i].0.StringKey? && !d[i].1.Nil?
  {
    [ (StringKey("db"), Str("mysql")),
      (StringKey("lang"), Str("es")),
      (StringKey("heroku"), Bool(false)),
      (StringKey("admin"), Bool(false)),
      (StringKey("pundit"), Bool(false)),
      (StringKey("paperclip"), Bool(false)),
      (StringKey("devise"), Bool(false)),
      (StringKey("api"), Bool(false)),
      (StringKey("delayed-job"), Bool(false)) ]
  }

  /** The default options have nine distinct keys. */
  lemma DefaultsDistinct()
    ensures |DefaultArguments()| == 9
    ensures DistinctKeys(DefaultArguments())
  {
  }

  /** The segments of the two string defaults. */
  lemma DefaultStringSegments()
    ensures Segments(DefaultArguments())[..2] == ["--db=mysql", "--lang=es"]
  {
    var segs := Segments(DefaultArguments());
    assert segs[0] == "--db=mysql";
    assert segs[1] == "--lang=es";
  }

  /** The segments of the first four switched-off features. */
  lemma DefaultFlagSegmentsA()
    ensures Segments(DefaultArguments())[2..6] == ["--no-heroku", "--no-admin", "--no-pundit", "--no-paperclip"]
  {
    var segs := Segments(DefaultArguments());
    assert segs[2] == "--no-heroku";
    assert segs[3] == "--no-admin";
    assert segs[4] == "--no-pundit";
    assert segs[5] == "--no-paperclip";
  }

  /** The segments of the last three switched-off features. */
  lemma DefaultFlagSegmentsB()
    ensures Segments(DefaultArguments())[6..] == ["--no-devise", "--no-api", "--no-delayed-job"]
  {
    var segs := Segments(DefaultArguments());
    assert segs[6] == "--no-devise";
    assert segs[7] == "--no-api";
    assert segs[8] == "--no-delayed-job";
  }

  /** The segments of the default options: two string options, then seven switched-off
      features, in the listed order. */
  lemma DefaultSegments()
    ensures Segments(DefaultArguments()) == DefaultFlags()
  {
    var segs := Segments(DefaultArguments());
    DefaultStringSegments();
    DefaultFlagSegmentsA();
    DefaultFlagSegmentsB();
    assert segs == segs[..2] + segs[2..6] + segs[6..];
  }

  /** The flags the defaults stand for, as they appear on the command line. */
  function DefaultFlags(): seq<string> {
    ["--db=mysql", "--lang=es", "--no-heroku", "--no-admin", "--no-pundit",
     "--no-paperclip", "--no-devise", "--no-api", "--no-delayed-job"]
  }

  /** With no options of its own, a test passes exactly the default flags, one space
      between each two, and splitting at the spaces gives them back. */
  lemma DefaultArgumentsSerialised()
    ensures HashToArguments(DefaultArguments()) == Join(DefaultFlags())
    ensures Split(HashToArguments(DefaultArguments())) == DefaultFlags()
  {
    DefaultSegments();
    DefaultsSpaceFree();
    ArgumentFields(DefaultArguments());
  }

  /** No default key or value contains a space. */
  lemma DefaultsSpaceFree()
    ensures SpaceFree(DefaultArguments())
  {
  }

  /** The options a dummy project is created with: the test's options merged over the
      defaults. */
  function FullArguments(user: Options): (a: Options)
    requires DistinctKeys(user)
    ensures DistinctKeys(a)
  {
    DefaultsDistinct();
    Merge(DefaultArguments(), user)
  }

  /** The shell command that creates the dummy project. */
  function CreateCommand(bin: string, user: Options): (c: string)
    requires DistinctKeys(user)
    ensures |c| >= |bin| + 18
    ensures c[..|bin|] == bin
    ensures c[|bin|..|bin| + 18] == " create dummy_app "
    ensures c[|bin| + 18..] == HashToArguments(FullArguments(user))
  {
    var args := HashToArguments(FullArguments(user));
    NamedCommand(bin, args);
    bin + " create " + AppName + " " + args
  }

  /** A test's option for a default key replaces the default's flag in the default's
      position; every other default flag stays where it was; the test's other options
      follow the nine defaults, in the test's order. */
  lemma UserOptionsOverDefaults(user: Options)
    requires DistinctKeys(user)
    ensures |Segments(FullArguments(user))| >= 9
    ensures forall i :: 0 <= i < 9 && HasKey(user, DefaultArguments()[i].0) ==>
      Segments(FullArguments(user))[i] == Token(DefaultArguments()[i].0, Lookup(user, DefaultArguments()[i].0).value)
    ensures forall i :: 0 <= i < 9 && !HasKey(user, DefaultArguments()[i].0) ==>
      Segments(FullArguments(user))[i] == DefaultFlags()[i]
    ensures Segments(FullArguments(user))[9..] == Segments(Fresh(user, DefaultArguments()))
  {
    DefaultsDistinct();
    DefaultSegments();
    MergedSegments(DefaultArguments(), user);
  }

  /** Splitting the command at its spaces gives the bin path, `create`, the application
      name, and then one field per option, when neither the bin path nor any option has
      a space in it. */
  lemma CommandFields(bin: string, user: Options)
    requires DistinctKeys(user)
    requires ' ' !in bin
    requires SpaceFree(user)
    ensures Split(CreateCommand(bin, user)) == [bin, "create", AppName] + Segments(FullArguments(user))
  {
    var a := FullArguments(user);
    assert SpaceFree(a) by {
      DefaultsDistinct();
      DefaultsSpaceFree();
      MergeSpaceFree(DefaultArguments(), user);
    }
    assert |a| >= 9 by {
      UserOptionsOverDefaults(user);
    }
    CommandSplit(bin, a);
  }

  /** The fields of a command line of the shape the helpers build. */
  lemma CommandSplit(bin: string, a: Options)
    requires ' ' !in bin
    requires SpaceFree(a) && a != []
    ensures Split(bin + " create " + AppName + " " + HashToArguments(a)) == [bin, "create", AppName] + Segments(a)
  {
    var args := HashToArguments(a);
    assert Split(args) == Segments(a) by {
      ArgumentFields(a);
    }
    assert bin + " create " == bin + " " + "create" + " " by {
      assert " create " == " " + "create" + " ";
    }
    assert ' ' !in "create" && ' ' !in AppName;
    LeadingWords(bin, "create", AppName, args);
  }

  /** Three words without spaces, each followed by a space, are the first three fields. */
  lemma LeadingWords(w1: string, w2: string, w3: string, rest: string)
    requires ' ' !in w1 && ' ' !in w2 && ' ' !in w3
    ensures Split(w1 + " " + w2 + " " + w3 + " " + rest) == [w1, w2, w3] + Split(rest)
  {
    var s3 := w3 + " " + rest;
    var s2 := w2 + " " + s3;
    SplitWord(w3, rest);
    SplitWord(w2, s3);
    SplitWord(w1, s2);
    assert w1 + " " + w2 + " " + w3 + " " + rest == w1 + " " + s2;
  }

  /** Every key of the defaults and of the test's options is passed exactly once, with
      the test's value when the test gives one and the default value otherwise. */
  lemma FullArgumentsLookup(user: Options, k: Key)
    requires DistinctKeys(user)
    ensures Lookup(FullArguments(user), k) == if HasKey(user, k) then Lookup(user, k) else Lookup(DefaultArguments(), k)
    ensures HasKey(FullArguments(user), k) <==> HasKey(DefaultArguments(), k) || HasKey(user, k)
  {
    DefaultsDistinct();
    MergeLookup(DefaultArguments(), user, k);
  }

  /** With no options of its own, a test runs the bin path, `create dummy_app`, and the
      default flags. */
  lemma CommandWithoutOptions(bin: string)
    ensures CreateCommand(bin, []) == bin + " create dummy_app " + Join(DefaultFlags())
  {
    var args := HashToArguments(FullArguments([]));
    assert args == Join(DefaultFlags()) by {
      DefaultsDistinct();
      MergeEmpty(DefaultArguments());
      DefaultArgumentsSerialised();
    }
    NamedCommand(bin, args);
  }

  /** The application name written out in the command line. */
  lemma NamedCommand(bin: string, args: string)
    ensures bin + " create " + AppName + " " + args == bin + " create dummy_app " + args
  {
  }

  /** Turning one feature on flips its flag in place: `"paperclip" => true` gives
      `--paperclip` as the sixth flag and changes nothing else. */
  lemma SwitchingFeatureOn()
    ensures Segments(FullArguments([(StringKey("paperclip"), Bool(true))]))
      == DefaultFlags()[5 := "--paperclip"]
  {
    var user := [(StringKey("paperclip"), Bool(true))];
    assert user == [(DefaultArguments()[5].0, Bool(true))];
    assert Token(StringKey("paperclip"), Bool(true)) == "--paperclip";
    DefaultsDistinct();
    DefaultSegments();
    OverrideOne(DefaultArguments(), 5, Bool(true));
  }

  /** A nil option blanks its segment but keeps its separators: `"api" => nil` leaves an
      empty field, hence two spaces in a row, between `--no-devise` and `--no-delayed-job`. */
  lemma NilOptionLeavesGap()
    ensures Segments(FullArguments([(StringKey("api"), Nil)]))
      == DefaultFlags()[7 := ""]
  {
    var user := [(StringKey("api"), Nil)];
    assert user == [(DefaultArguments()[7].0, Nil)];
    DefaultsDistinct();
    DefaultSegments();
    OverrideOne(DefaultArguments(), 7, Nil);
  }

  /** A symbol key is a different hash key from the string key of the same name, so
      `db: "postgresql"` does not replace the default `"db"`: both flags are passed, the
      default first. */
  lemma SymbolKeyDoesNotOverride()
    ensures Segments(FullArguments([(SymbolKey("db"), Str("postgresql"))]))
      == DefaultFlags() + ["--db=postgresql"]
  {
    assert Token(SymbolKey("db"), Str("postgresql")) == "--db=postgresql";
    DefaultsDistinct();
    DefaultSegments();
    assert !HasKey(DefaultArguments(), SymbolKey("db"));
    AddOne(DefaultArguments(), SymbolKey("db"), Str("postgresql"));
  }
}
