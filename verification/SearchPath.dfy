/** The strings that list the directories to search for a DLL: sized in one pass, joined in a second. */
module SearchPath {
  import opened Wrappers

  type Path = Text

  const SEMICOLON: u16 := 0x3B

  datatype Status = Success | BufferTooSmall | NameTooLong | NoMemory

  // ---------------------------------------------------------------- joining

  /** One element behind what is there; empty ones leave no trace. */
  function Behind(joined: Path, element: Path): Path {
    if element == [] then joined else if joined == [] then element else joined + [SEMICOLON] + element
  }

  function Join(elements: seq<Path>): Path {
    if elements == [] then [] else Behind(Join(elements[..|elements| - 1]), elements[|elements| - 1])
  }

  function NonEmpty(elements: seq<Path>): seq<Path> {
    if elements == [] then []
    else NonEmpty(elements[..|elements| - 1]) +
         (if elements[|elements| - 1] == [] then [] else [elements[|elements| - 1]])
  }

  /** The pieces between the semicolons. */
  function Split(joined: Path): (r: seq<Path>)
    ensures r != []
  {
    if joined == [] then [[]]
    else
      var init := Split(joined[..|joined| - 1]);
      var last := joined[|joined| - 1];
      if last == SEMICOLON then init + [[]]
      else init[..|init| - 1] + [init[|init| - 1] + [last]]
  }

  predicate Plain(element: Path) {
    SEMICOLON !in element
  }

  lemma {:induction false} SplitPlain(joined: Path, element: Path)
    requires Plain(element)
    ensures Split(joined + [SEMICOLON] + element) == Split(joined) + [element]
  {
    var whole := joined + [SEMICOLON] + element;
    if element == [] {
      assert whole[..|whole| - 1] == joined && whole[|whole| - 1] == SEMICOLON;
      assert Split(whole) == Split(joined) + [element];
    } else {
      var init := element[..|element| - 1];
      assert whole[..|whole| - 1] == joined + [SEMICOLON] + init;
      assert whole[|whole| - 1] == element[|element| - 1] != SEMICOLON;
      SplitPlain(joined, init);
      assert init + [element[|element| - 1]] == element;
    }
  }

  lemma {:induction false} SplitOne(element: Path)
    requires Plain(element)
    ensures Split(element) == [element]
  {
    if element != [] {
      var init, last := element[..|element| - 1], element[|element| - 1];
      SplitOne(init);
      assert init + [last] == element;
      assert Split(element) == Split(init)[..0] + [Split(init)[0] + [last]];
    }
  }

  /** Whoever splits the path at its semicolons gets the directories back, in order and without the
      empty ones. */
  lemma {:induction false} JoinIsInvertible(elements: seq<Path>)
    requires forall i :: 0 <= i < |elements| ==> Plain(elements[i])
    ensures NonEmpty(elements) != [] ==> Join(elements) != [] && Split(Join(elements)) == NonEmpty(elements)
    ensures NonEmpty(elements) == [] ==> Join(elements) == []
  {
    hide Split;
    if elements != [] {
      var init, last := elements[..|elements| - 1], elements[|elements| - 1];
      JoinIsInvertible(init);
      SplitOne(last);
      SplitPlain(Join(init), last);
    }
  }

  lemma BehindIsAssociative(a: Path, b: Path, c: Path)
    ensures Behind(a, Behind(b, c)) == Behind(Behind(a, b), c)
  {
    if a != [] && b != [] && c != [] {
      assert a + [SEMICOLON] + (b + [SEMICOLON] + c) == (a + [SEMICOLON] + b) + [SEMICOLON] + c;
    }
  }

  lemma {:induction false} JoinConcat(a: seq<Path>, b: seq<Path>)
    ensures Join(a + b) == Behind(Join(a), Join(b))
  {
    hide Behind;
    if b == [] {
      assert a + b == a;
      BehindEmpty(Join(a));
    } else {
      assert (a + b)[..|a + b| - 1] == a + b[..|b| - 1];
      JoinConcat(a, b[..|b| - 1]);
      BehindIsAssociative(Join(a), Join(b[..|b| - 1]), b[|b| - 1]);
    }
  }

  lemma BehindEmpty(a: Path)
    ensures Behind(a, []) == a == Behind([], a)
  {
  }

  /** A list of directories that is itself joined may stand among the elements. */
  lemma JoinOfJoined(before: seq<Path>, inner: seq<Path>, behind: seq<Path>)
    ensures Join(before + [Join(inner)] + behind) == Join(before + inner + behind)
  {
    JoinConcat(before + [Join(inner)], behind);
    JoinConcat(before, [Join(inner)]);
    JoinConcat(before + inner, behind);
    JoinConcat(before, inner);
    BehindEmpty(Join(inner));
    assert [Join(inner)][..0] == [];
    assert Join([Join(inner)]) == Behind(Join([]), Join(inner));
  }

  // ---------------------------------------------------------------- a string with a buffer

  class UnicodeString {
    const buffer: array<u16>
    /** Lengths in bytes. */
    var length: nat
    const maximumLength: nat

    ghost predicate Valid()
      reads this
    {
      && length % 2 == 0 && length <= maximumLength
      && maximumLength / 2 <= buffer.Length
    }

    ghost function Text(): (r: Path)
      requires Valid()
      reads this, buffer
      ensures 2 * |r| == length
    {
      buffer[..length / 2]
    }

    /** RtlAllocateHeap with HEAP_ZERO_MEMORY: as many units as fit in `bytes`. */
    constructor (bytes: nat)
      ensures Valid() && Text() == [] && maximumLength == bytes && fresh(buffer) && buffer.Length == bytes / 2
      ensures forall i :: 0 <= i < buffer.Length ==> buffer[i] == 0
    {
      buffer := new u16[bytes / 2](_ => 0);
      length, maximumLength := 0, bytes;
    }

    /** RtlAppendUnicodeStringToString */
    method Append(source: Path) returns (status: Status)
      requires Valid()
      modifies this`length, buffer
      ensures Valid()
      ensures status == if old(length) + 2 * |source| <= maximumLength then Success else BufferTooSmall
      ensures Text() == if status == Success then old(Text()) + source else old(Text())
      ensures old(Zeroed()) ==> Zeroed()
    {
      if length + 2 * |source| > maximumLength {
        return BufferTooSmall;
      }
      var at := length / 2;
      forall i | 0 <= i < |source| {
        buffer[at + i] := source[i];
      }
      length := length + 2 * |source|;
      if length + 2 <= maximumLength {
        buffer[length / 2] := 0;
      }
      assert buffer[..at + |source|] == old(buffer[..at]) + source;
      return Success;
    }

    /** Nothing but zeros behind the text. */
    ghost predicate Zeroed()
      requires Valid()
      reads this, buffer
    {
      forall i :: length / 2 <= i < buffer.Length ==> buffer[i] == 0
    }

    /** LdkpAppendDllPathElement */
    method AppendElement(element: Path) returns (status: Status)
      requires Valid()
      modifies this`length, buffer
      ensures Valid()
      ensures status == if 2 * |Behind(old(Text()), element)| <= maximumLength then Success else BufferTooSmall
      ensures status == Success ==> Text() == Behind(old(Text()), element)
      ensures status != Success ==> Text() == old(Text()) || Text() == old(Text()) + [SEMICOLON]
      ensures old(Zeroed()) ==> Zeroed()
    {
      if element == [] {
        return Success;
      }
      if length != 0 {
        status := Append([SEMICOLON]);
        if status != Success {
          return;
        }
      }
      status := Append(element);
    }
  }

  lemma {:induction false} JoinGrows(elements: seq<Path>, i: nat)
    requires i <= |elements|
    ensures |Join(elements[..i])| <= |Join(elements)|
  {
    if i < |elements| {
      assert elements[..|elements| - 1][..i] == elements[..i];
      JoinGrows(elements[..|elements| - 1], i);
    } else {
      assert elements[..i] == elements;
    }
  }

  lemma JoinNext(done: seq<Path>, element: Path)
    ensures Join(done + [element]) == Behind(Join(done), element)
  {
    assert (done + [element])[..|done|] == done;
  }

  lemma JoinGrowsBy(done: seq<Path>, more: seq<Path>)
    ensures |Join(done)| <= |Join(done + more)|
  {
    assert (done + more)[..|done|] == done;
    JoinGrows(done + more, |done|);
  }

  /** One more element of a list that is being joined in `path`. */
  method AppendNext(path: UnicodeString, element: Path, ghost done: seq<Path>) returns (status: Status)
    requires path.Valid() && path.Zeroed() && path.Text() == Join(done)
    modifies path`length, path.buffer
    ensures path.Valid() && path.Zeroed()
    ensures status == if 2 * |Join(done + [element])| <= path.maximumLength then Success else BufferTooSmall
    ensures status == Success ==> path.Text() == Join(done + [element])
  {
    hide Join, Behind;
    JoinNext(done, element);
    status := path.AppendElement(element);
  }

  // ---------------------------------------------------------------- LdkpDuplicateUserDllDirectories

  /** The first pass: the room for all elements, and how many there are. */
  method Measure(own: Path, listed: seq<Path>) returns (required: nat, count: nat)
    ensures count == 0 <==> Join([own] + listed) == []
    ensures required == 2 * |Join([own] + listed)| + 2
  {
    hide Join;
    required, count := 2, 0;
    JoinOfOne(own);
    if own != [] {
      required := required + 2 * |own|;
      count := count + 1;
    }
    assert [own] + listed[..0] == [own];
    for i := 0 to |listed|
      invariant var joined := Join([own] + listed[..i]);
                && (count == 0 <==> joined == [])
                && required + 2 * (if count > 0 then count - 1 else 0) == 2 * |joined| + 2
    {
      assert [own] + listed[..i + 1] == ([own] + listed[..i]) + [listed[i]];
      JoinNext([own] + listed[..i], listed[i]);
      if listed[i] != [] {
        required := required + 2 * |listed[i]|;
        count := count + 1;
      }
    }
    assert listed[..|listed|] == listed;
    if count > 1 {
      required := required + (count - 1) * 2;
    }
  }

  lemma JoinOfOne(element: Path)
    ensures Join([element]) == element
  {
    assert [element][..0] == [];
  }

  /** The second pass never runs out of room. */
  method DuplicateUserDllDirectories(own: Path, listed: seq<Path>, available: bool)
    returns (status: Status, copy: UnicodeString?)
    ensures var joined := Join([own] + listed);
            && status == (if joined == [] then Success
                          else if 2 * |joined| + 2 > 0xFFFF then NameTooLong
                          else if !available then NoMemory else Success)
            && (copy != null <==> status == Success && joined != [])
            && (copy != null ==>
                  && copy.Valid() && copy.Text() == joined
                  && copy.maximumLength == 2 * |joined| + 2
                  && copy.buffer[|joined|] == 0)
  {
    hide Join;
    copy := null;
    var required, count := Measure(own, listed);
    if count == 0 {
      return Success, null;
    }
    if required > 0xFFFF {
      return NameTooLong, null;
    }
    if !available {
      return NoMemory, null;
    }
    var made := new UnicodeString(required);
    FillUserDllDirectories(made, own, listed);
    status, copy := Success, made;
  }

  method FillUserDllDirectories(path: UnicodeString, own: Path, listed: seq<Path>)
    requires path.Valid() && path.Zeroed() && path.Text() == [] && path.maximumLength == 2 * |Join([own] + listed)| + 2
    modifies path`length, path.buffer
    ensures path.Valid() && path.Zeroed() && path.Text() == Join([own] + listed)
  {
    hide Join;
    JoinOfNone();
    JoinGrowsBy([own], listed);
    assert [] + [own] == [own];
    var status := AppendNext(path, own, []);
    assert status == Success;
    assert [own] + listed[..0] == [own];
    for i := 0 to |listed|
      invariant path.Valid() && path.Zeroed() && path.Text() == Join([own] + listed[..i])
    {
      assert [own] + listed[..i + 1] == ([own] + listed[..i]) + [listed[i]];
      assert [own] + listed == ([own] + listed[..i + 1]) + listed[i + 1..];
      JoinGrowsBy([own] + listed[..i + 1], listed[i + 1..]);
      status := AppendNext(path, listed[i], [own] + listed[..i]);
      assert status == Success;
    }
    assert listed[..|listed|] == listed;
  }

  lemma JoinOfNone()
    ensures Join([]) == []
  {
  }

  // ---------------------------------------------------------------- LdkpComputeDllPath

  /** LDK_LOAD_LIBRARY_SEARCH_FLAGS */
  datatype Flag = DllLoadDir | ApplicationDir | UserDirs | System32 | DefaultDirs | System32NoForwarder

  datatype Directories = Directories(load: Path, image: Path, system: Path, environment: Path, user: Path)

  /** Where to look, in order: by the flags of the call, else by the defaults of the process. */
  function SearchOrder(d: Directories, altered: bool, flags: set<Flag>, defaults: set<Flag>): seq<Path> {
    var search := if flags == {} then defaults else flags;
    if altered then [d.load, d.image, d.environment]
    else if search == {} then [d.image, d.environment]
    else (if DllLoadDir in search then [d.load] else []) + FlaggedDirectories(d, search)
  }

  /** The size computed for the whole path, before it is cut to 16 bits. */
  function Sized(d: Directories): nat {
    2 * (|d.load| + |d.image| + |d.system| + |d.environment| + |d.user|) + 5 * 2 + 2
  }

  lemma {:induction false} JoinBound(elements: seq<Path>)
    ensures |Join(elements)| <= Sum(elements) + |elements|
  {
    if elements != [] {
      JoinBound(elements[..|elements| - 1]);
    }
  }

  function Sum(elements: seq<Path>): nat {
    if elements == [] then 0 else Sum(elements[..|elements| - 1]) + |elements[|elements| - 1]|
  }

  lemma {:induction false} SumConcat(a: seq<Path>, b: seq<Path>)
    ensures Sum(a + b) == Sum(a) + Sum(b)
  {
    if b == [] {
      assert a + b == a;
    } else {
      assert (a + b)[..|a + b| - 1] == a + b[..|b| - 1];
      SumConcat(a, b[..|b| - 1]);
    }
  }

  lemma SumOne(a: Path)
    ensures Sum([a]) == |a| && Sum([]) == 0
  {
    assert [a][..0] == [];
  }

  lemma SumThree(a: Path, b: Path, c: Path)
    ensures Sum([a, b, c]) == |a| + |b| + |c|
  {
    SumOne(a);
    SumOne(b);
    SumOne(c);
    assert [a, b, c] == [a] + [b] + [c];
    SumConcat([a] + [b], [c]);
    SumConcat([a], [b]);
  }

  /** The parts of the order that follow the load directory when search flags are given. */
  function FlaggedDirectories(d: Directories, search: set<Flag>): seq<Path> {
    if DefaultDirs in search then [d.image, d.user, d.system]
    else
      (if ApplicationDir in search then [d.image] else []) +
      (if System32 in search || System32NoForwarder in search then [d.system] else []) +
      (if UserDirs in search then [d.user] else [])
  }

  /** The places a search can go to. */
  datatype Place = TheLoadDirectory | TheImage | TheSystem | TheEnvironment | TheUserDirectories

  function DirectoryOf(d: Directories, place: Place): Path {
    match place
    case TheLoadDirectory => d.load
    case TheImage => d.image
    case TheSystem => d.system
    case TheEnvironment => d.environment
    case TheUserDirectories => d.user
  }

  /** Which places a search is to visit; `search` are the flags in force, none for a search without. */
  ghost predicate Wanted(altered: bool, search: set<Flag>, place: Place) {
    match place
    case TheLoadDirectory => altered || DllLoadDir in search
    case TheImage => altered || search == {} || DefaultDirs in search || ApplicationDir in search
    case TheSystem => !altered && (DefaultDirs in search || System32 in search || System32NoForwarder in search)
    case TheEnvironment => altered || search == {}
    case TheUserDirectories => !altered && (DefaultDirs in search || UserDirs in search)
  }

  /** Which place comes before which: the load directory first, then the image, the environment last; between
      the system and the user directories it depends on whether the default directories were asked for. */
  ghost predicate Earlier(search: set<Flag>, a: Place, b: Place) {
    || (a == TheLoadDirectory && b != TheLoadDirectory)
    || (a == TheImage && b != TheImage && b != TheLoadDirectory)
    || (b == TheEnvironment && a != TheEnvironment)
    || (a == TheUserDirectories && b == TheSystem && DefaultDirs in search)
    || (a == TheSystem && b == TheUserDirectories && DefaultDirs !in search)
  }

  ghost predicate IsOrder(places: seq<Place>, altered: bool, search: set<Flag>) {
    && (forall place :: place in places <==> Wanted(altered, search, place))
    && (forall i, j :: 0 <= i < j < |places| ==> places[i] != places[j] && Earlier(search, places[i], places[j]))
  }

  function PathsOf(d: Directories, places: seq<Place>): (r: seq<Path>)
    ensures |r| == |places| && forall i :: 0 <= i < |places| ==> r[i] == DirectoryOf(d, places[i])
  {
    seq(|places|, i requires 0 <= i < |places| => DirectoryOf(d, places[i]))
  }

  /** The search visits exactly the places it is to visit, each once, in their order.  Search flags count only
      without an altered search path. */
  lemma SearchGoesInOrder(d: Directories, altered: bool, flags: set<Flag>, defaults: set<Flag>)
    returns (places: seq<Place>)
    ensures var search := if altered then {} else if flags == {} then defaults else flags;
            IsOrder(places, altered, search) && SearchOrder(d, altered, flags, defaults) == PathsOf(d, places)
  {
    var search := if altered then {} else if flags == {} then defaults else flags;
    if altered {
      places := [TheLoadDirectory, TheImage, TheEnvironment];
    } else if search == {} {
      places := [TheImage, TheEnvironment];
    } else {
      places := FlaggedPlaces(d, search);
    }
  }

  lemma FlaggedPlaces(d: Directories, search: set<Flag>) returns (places: seq<Place>)
    requires search != {}
    ensures IsOrder(places, false, search)
    ensures (if DllLoadDir in search then [d.load] else []) + FlaggedDirectories(d, search) == PathsOf(d, places)
  {
    hide Earlier, IsOrder, Sorted, PathsOf;
    NoPlaces(d, search);
    OrderOf(search);
    places := OneMore(d, [], TheLoadDirectory, DllLoadDir in search, search);
    if DefaultDirs in search {
      places := DefaultPlaces(d, search, places);
    } else {
      places := ChosenPlaces(d, search, places);
    }
    AllPlaces(places, search);
  }

  lemma DefaultPlaces(d: Directories, search: set<Flag>, first: seq<Place>) returns (places: seq<Place>)
    requires Sorted(first, search) && DefaultDirs in search && forall p :: p in first ==> p == TheLoadDirectory
    ensures Sorted(places, search) && PathsOf(d, places) == PathsOf(d, first) + FlaggedDirectories(d, search)
    ensures forall p :: p in places <==> p in first || p == TheImage || p == TheUserDirectories || p == TheSystem
  {
    hide Earlier, Sorted, PathsOf;
    OrderOf(search);
    places := OneMore(d, first, TheImage, true, search);
    places := OneMore(d, places, TheUserDirectories, true, search);
    places := OneMore(d, places, TheSystem, true, search);
  }

  lemma ChosenPlaces(d: Directories, search: set<Flag>, first: seq<Place>) returns (places: seq<Place>)
    requires Sorted(first, search) && DefaultDirs !in search && forall p :: p in first ==> p == TheLoadDirectory
    ensures Sorted(places, search) && PathsOf(d, places) == PathsOf(d, first) + FlaggedDirectories(d, search)
    ensures forall p :: p in places <==>
              || p in first || (p == TheImage && ApplicationDir in search)
              || (p == TheSystem && (System32 in search || System32NoForwarder in search))
              || (p == TheUserDirectories && UserDirs in search)
  {
    hide Earlier, Sorted, PathsOf;
    OrderOf(search);
    places := OneMore(d, first, TheImage, ApplicationDir in search, search);
    places := OneMore(d, places, TheSystem, System32 in search || System32NoForwarder in search, search);
    places := OneMore(d, places, TheUserDirectories, UserDirs in search, search);
  }

  lemma NoPlaces(d: Directories, search: set<Flag>)
    ensures Sorted([], search) && PathsOf(d, []) == []
  {
  }

  lemma OrderOf(search: set<Flag>)
    ensures Earlier(search, TheLoadDirectory, TheImage) && Earlier(search, TheLoadDirectory, TheSystem)
    ensures Earlier(search, TheLoadDirectory, TheUserDirectories)
    ensures Earlier(search, TheImage, TheSystem) && Earlier(search, TheImage, TheUserDirectories)
    ensures if DefaultDirs in search then Earlier(search, TheUserDirectories, TheSystem)
            else Earlier(search, TheSystem, TheUserDirectories)
  {
  }

  lemma AllPlaces(places: seq<Place>, search: set<Flag>)
    requires Sorted(places, search) && search != {} && TheEnvironment !in places
    requires TheLoadDirectory in places <==> DllLoadDir in search
    requires TheImage in places <==> DefaultDirs in search || ApplicationDir in search
    requires TheSystem in places <==> DefaultDirs in search || System32 in search || System32NoForwarder in search
    requires TheUserDirectories in places <==> DefaultDirs in search || UserDirs in search
    ensures IsOrder(places, false, search)
  {
    hide Earlier;
  }

  ghost predicate Sorted(places: seq<Place>, search: set<Flag>) {
    forall i, j :: 0 <= i < j < |places| ==> places[i] != places[j] && Earlier(search, places[i], places[j])
  }

  /** The next place, if it is wanted. */
  lemma OneMore(d: Directories, places: seq<Place>, place: Place, wanted: bool, search: set<Flag>)
    returns (more: seq<Place>)
    requires Sorted(places, search) && forall p :: p in places ==> p != place && Earlier(search, p, place)
    ensures Sorted(more, search) && forall p :: p in more <==> p in places || (wanted && p == place)
    ensures PathsOf(d, more) == PathsOf(d, places) + if wanted then [DirectoryOf(d, place)] else []
  {
    hide Earlier, PathsOf;
    more := places;
    if wanted {
      PathsSnoc(d, places, place);
      more := places + [place];
      forall i, j | 0 <= i < j < |more|
        ensures more[i] != more[j] && Earlier(search, more[i], more[j])
      {
        assert more[i] == places[i] && places[i] in places;
        assert j < |places| ==> more[j] == places[j];
      }
    } else {
      assert PathsOf(d, places) + [] == PathsOf(d, places);
    }
  }

  lemma PathsSnoc(d: Directories, places: seq<Place>, place: Place)
    ensures PathsOf(d, places + [place]) == PathsOf(d, places) + [DirectoryOf(d, place)]
  {
    var more := places + [place];
    forall i | 0 <= i < |more|
      ensures PathsOf(d, more)[i] == (PathsOf(d, places) + [DirectoryOf(d, place)])[i]
    {
      assert more[i] == if i < |places| then places[i] else place;
    }
  }

  lemma FlaggedSum(d: Directories, search: set<Flag>)
    ensures Sum(FlaggedDirectories(d, search)) <= |d.image| + |d.system| + |d.user|
    ensures |FlaggedDirectories(d, search)| <= 3
  {
    hide Sum;
    SumThree(d.image, d.user, d.system);
    SumOne(d.image);
    SumOne(d.system);
    SumOne(d.user);
    if DefaultDirs !in search {
      var a := if ApplicationDir in search then [d.image] else [];
      var b := if System32 in search || System32NoForwarder in search then [d.system] else [];
      var c := if UserDirs in search then [d.user] else [];
      SumConcat(a + b, c);
      SumConcat(a, b);
    }
  }

  /** The computed size has room for every order and a NUL behind it. */
  lemma SizeSuffices(d: Directories, altered: bool, flags: set<Flag>, defaults: set<Flag>)
    ensures 2 * |Join(SearchOrder(d, altered, flags, defaults))| + 2 <= Sized(d)
  {
    hide Sum, Join, FlaggedDirectories;
    var order := SearchOrder(d, altered, flags, defaults);
    var search := if flags == {} then defaults else flags;
    JoinBound(order);
    SumThree(d.load, d.image, d.environment);
    SumThree(d.image, d.environment, []);
    SumOne(d.load);
    if altered {
    } else if search == {} {
      assert [d.image, d.environment, []] == [d.image, d.environment] + [[]];
      SumConcat([d.image, d.environment], [[]]);
      SumOne([]);
    } else {
      FlaggedSum(d, search);
      SumConcat(if DllLoadDir in search then [d.load] else [], FlaggedDirectories(d, search));
    }
  }

  /** Appends the elements that follow `done`, up to the first that does not fit. */
  method AppendThree(path: UnicodeString, a: Path, b: Path, c: Path, ghost done: seq<Path>) returns (status: Status)
    requires path.Valid() && path.Zeroed() && path.Text() == Join(done)
    modifies path`length, path.buffer
    ensures path.Valid() && path.Zeroed()
    ensures status == if 2 * |Join(done + [a, b, c])| <= path.maximumLength then Success else BufferTooSmall
    ensures status == Success ==> path.Text() == Join(done + [a, b, c])
  {
    hide Join;
    assert done + [a, b, c] == done + [a] + [b] + [c];
    JoinGrowsBy(done + [a], [b, c]);
    assert done + [a] + [b, c] == done + [a, b, c];
    JoinGrowsBy(done + [a] + [b], [c]);
    status := AppendNext(path, a, done);
    if status == Success {
      status := AppendNext(path, b, done + [a]);
      if status == Success {
        status := AppendNext(path, c, done + [a] + [b]);
      }
    }
  }

  /** The flags ask for an element or leave it out, which is like appending an empty one. */
  method AppendIf(path: UnicodeString, wanted: bool, element: Path, ghost done: seq<Path>) returns (status: Status)
    requires path.Valid() && path.Zeroed() && path.Text() == Join(done)
    modifies path`length, path.buffer
    ensures path.Valid() && path.Zeroed()
    ensures var more := if wanted then [element] else [];
            && status == (if 2 * |Join(done + more)| <= path.maximumLength then Success else BufferTooSmall)
            && (status == Success ==> path.Text() == Join(done + more))
  {
    hide Join;
    status := Success;
    assert done + [] == done;
    if wanted {
      status := AppendNext(path, element, done);
    }
  }

  /** The appending part of LdkpComputeDllPath. */
  method FillDllPath(path: UnicodeString, d: Directories, altered: bool, flags: set<Flag>, defaults: set<Flag>)
    returns (status: Status)
    requires path.Valid() && path.Zeroed() && path.Text() == []
    modifies path`length, path.buffer
    ensures path.Valid() && path.Zeroed()
    ensures var joined := Join(SearchOrder(d, altered, flags, defaults));
            && status == (if 2 * |joined| <= path.maximumLength then Success else BufferTooSmall)
            && (status == Success ==> path.Text() == joined)
  {
    hide Join;
    JoinOfNone();
    var search := if flags == {} then defaults else flags;
    if altered {
      status := AppendThree(path, d.load, d.image, d.environment, []);
      assert [] + [d.load, d.image, d.environment] == [d.load, d.image, d.environment];
    } else if search != {} {
      status := AppendFlagged(path, d, search);
    } else {
      assert [] + [d.image] == [d.image];
      assert [d.image] + [d.environment] == [d.image, d.environment];
      JoinGrowsBy([d.image], [d.environment]);
      status := AppendNext(path, d.image, []);
      if status == Success {
        status := AppendNext(path, d.environment, [d.image]);
      }
    }
  }

  method AppendFlagged(path: UnicodeString, d: Directories, search: set<Flag>) returns (status: Status)
    requires path.Valid() && path.Zeroed() && path.Text() == [] && search != {}
    modifies path`length, path.buffer
    ensures path.Valid() && path.Zeroed()
    ensures var joined := Join((if DllLoadDir in search then [d.load] else []) + FlaggedDirectories(d, search));
            && status == (if 2 * |joined| <= path.maximumLength then Success else BufferTooSmall)
            && (status == Success ==> path.Text() == joined)
  {
    hide Join;
    JoinOfNone();
    ghost var first := if DllLoadDir in search then [d.load] else [];
    assert [] + first == first;
    JoinGrowsBy(first, FlaggedDirectories(d, search));
    status := AppendIf(path, DllLoadDir in search, d.load, []);
    if status == Success {
      if DefaultDirs in search {
        status := AppendThree(path, d.image, d.user, d.system, first);
      } else {
        status := AppendChosen(path, d, search, first);
      }
    }
  }

  method AppendChosen(path: UnicodeString, d: Directories, search: set<Flag>, ghost done: seq<Path>)
    returns (status: Status)
    requires path.Valid() && path.Zeroed() && path.Text() == Join(done) && DefaultDirs !in search
    modifies path`length, path.buffer
    ensures path.Valid() && path.Zeroed()
    ensures var joined := Join(done + FlaggedDirectories(d, search));
            && status == (if 2 * |joined| <= path.maximumLength then Success else BufferTooSmall)
            && (status == Success ==> path.Text() == joined)
  {
    hide Join;
    ghost var a := if ApplicationDir in search then [d.image] else [];
    ghost var b := if System32 in search || System32NoForwarder in search then [d.system] else [];
    ghost var c := if UserDirs in search then [d.user] else [];
    assert done + FlaggedDirectories(d, search) == done + a + b + c;
    JoinGrowsBy(done + a + b, c);
    JoinGrowsBy(done + a, b);
    status := AppendIf(path, ApplicationDir in search, d.image, done);
    if status == Success {
      status := AppendIf(path, System32 in search || System32NoForwarder in search, d.system, done + a);
      if status == Success {
        status := AppendIf(path, UserDirs in search, d.user, done + a + b);
      }
    }
  }

  /** The text is followed by a NUL in its buffer. */
  ghost predicate Terminated(path: UnicodeString)
    requires path.Valid()
    reads path, path.buffer
  {
    |path.Text()| < path.buffer.Length && path.buffer[|path.Text()|] == 0
  }

  /** LdkpComputeDllPath, once the five strings are there.  The size is kept in 16 bits.  The path comes out
      whole exactly when the cut size still suffices for it, and ends in a NUL exactly when there is room
      for that as well; while the size fits 16 bits it does both. */
  method ComputeDllPath(d: Directories, altered: bool, flags: set<Flag>, defaults: set<Flag>, available: bool)
    returns (status: Status, path: UnicodeString?)
    ensures var joined := Join(SearchOrder(d, altered, flags, defaults));
            && status == (if !available then NoMemory
                          else if 2 * |joined| <= Sized(d) % 0x1_0000 then Success else BufferTooSmall)
            && (path != null <==> status == Success)
            && (path != null ==> path.Valid() && path.Text() == joined)
            && (path != null ==> (Terminated(path) <==> 2 * |joined| + 2 <= Sized(d) % 0x1_0000))
            && (available && Sized(d) <= 0xFFFF ==> path != null && Terminated(path))
  {
    hide Join;
    SizeSuffices(d, altered, flags, defaults);
    SizeIsEven(d);
    if !available {
      return NoMemory, null;
    }
    var made := new UnicodeString(Sized(d) % 0x1_0000);
    status := FillDllPath(made, d, altered, flags, defaults);
    path := if status == Success then made else null;
  }

  lemma SizeIsEven(d: Directories)
    ensures Sized(d) % 0x1_0000 % 2 == 0
  {
    var units := |d.load| + |d.image| + |d.system| + |d.environment| + |d.user| + 6;
    assert Sized(d) == 2 * units;
    assert Sized(d) % 0x1_0000 == Sized(d) - 0x1_0000 * (Sized(d) / 0x1_0000);
  }

  /** Directories for which the path comes out without a NUL: the system directory, which is not searched in
      this mode, makes the size wrap to just the length of the path. */
  function WrappingDirectories(): Directories {
    Directories([0x61], [0x62], seq(32764, _ => 0x63), [0x64], [])
  }

  lemma NoRoomForNul()
    ensures var d := WrappingDirectories();
            Sized(d) % 0x1_0000 == 2 * |Join(SearchOrder(d, true, {}, {}))|
  {
    var d := WrappingDirectories();
    var order: seq<Path> := [[0x61], [0x62], [0x64]];
    assert SearchOrder(d, true, {}, {}) == order;
    assert order[..2] == [[0x61], [0x62]] && order[..2][..1] == [[0x61]] && order[..2][..1][..0] == [];
    assert |Join(order[..2][..1])| == 1;
    assert |Join(order[..2])| == 3;
  }
}
