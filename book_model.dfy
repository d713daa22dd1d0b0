/**
 * The Book schema: field constraints, defaults and the trimming the schema
 * applies to its text fields, as a validity predicate, a document constructor
 * (Book.create) and a partial update (findByIdAndUpdate with runValidators).
 */
module BookModel {
  import opened Wrappers
  import opened Ids

  /** Cover shown when a book is created without an image URL. */
  const DefaultImageUrl: string := "https://myersedpress.presswarehouse.com/publishers/default_cover.png"

  const TitleMinLength: nat := 2
  const TitleMaxLength: nat := 255
  const GenreMinLength: nat := 2
  const DescriptionMaxLength: nat := 1000
  const EarliestPublicationYear: int := 1000

  /**
   * The code points String.prototype.trim removes: the ECMAScript WhiteSpace
   * and LineTerminator characters.
   */
  predicate IsSpace(c: char) {
    || c == '\t' || c == '\n' || c == '\U{000B}' || c == '\U{000C}' || c == '\r' || c == ' '
    || c == '\U{00A0}' || c == '\U{1680}' || ('\U{2000}' <= c <= '\U{200A}')
    || c == '\U{2028}' || c == '\U{2029}' || c == '\U{202F}' || c == '\U{205F}'
    || c == '\U{3000}' || c == '\U{FEFF}'
  }

  /** Text with no white space at either end. */
  predicate Trimmed(s: string) {
    s == [] || (!IsSpace(s[0]) && !IsSpace(s[|s| - 1]))
  }

  /**
   * String.prototype.trim, applied by the schema to title, author and genre:
   * drops the white space at the start, then the white space at the end.
   */
  function Trim(s: string): (r: string)
    ensures |r| <= |s|
    ensures Trimmed(r)
    decreases |s|
  {
    if |s| > 0 && IsSpace(s[0]) then Trim(s[1..])
    else if |s| > 0 && IsSpace(s[|s| - 1]) then Trim(s[..|s| - 1])
    else s
  }

  /** Trimmed text is exactly the text trim leaves unchanged. */
  lemma TrimmedIsFixedPoint(s: string)
    ensures Trimmed(s) <==> Trim(s) == s
  {
  }

  /** `r` sits in `s` at `i`, with only white space before and after it. */
  predicate SpaceAround(s: string, r: string, i: int) {
    && 0 <= i && i + |r| <= |s| && r == s[i..i + |r|]
    && (forall k :: 0 <= k < i ==> IsSpace(s[k]))
    && (forall k :: i + |r| <= k < |s| ==> IsSpace(s[k]))
  }

  /** A white-space character in front of `s` joins the run before the slice. */
  lemma SpaceAroundCons(s: string, r: string, j: int)
    requires |s| > 0 && IsSpace(s[0]) && SpaceAround(s[1..], r, j)
    ensures SpaceAround(s, r, j + 1)
  {
    assert s[1..][j..j + |r|] == s[j + 1..j + 1 + |r|];
    forall k | 0 < k < |s| ensures s[k] == s[1..][k - 1] {
    }
  }

  /** A white-space character after `s` joins the run after the slice. */
  lemma SpaceAroundSnoc(s: string, r: string, j: int)
    requires |s| > 0 && IsSpace(s[|s| - 1]) && SpaceAround(s[..|s| - 1], r, j)
    ensures SpaceAround(s, r, j)
  {
    assert s[..|s| - 1][j..j + |r|] == s[j..j + |r|];
    forall k | 0 <= k < |s| - 1 ensures s[k] == s[..|s| - 1][k] {
    }
  }

  /** Trim keeps exactly the middle of `s`: a slice between two runs of white space. */
  lemma {:induction false} TrimIsSlice(s: string)
    ensures exists i :: SpaceAround(s, Trim(s), i)
    decreases |s|
  {
    if |s| > 0 && IsSpace(s[0]) {
      TrimIsSlice(s[1..]);
      var j :| SpaceAround(s[1..], Trim(s[1..]), j);
      SpaceAroundCons(s, Trim(s), j);
    } else if |s| > 0 && IsSpace(s[|s| - 1]) {
      TrimIsSlice(s[..|s| - 1]);
      var j :| SpaceAround(s[..|s| - 1], Trim(s[..|s| - 1]), j);
      SpaceAroundSnoc(s, Trim(s), j);
    } else {
      assert SpaceAround(s, Trim(s), 0);
    }
  }

  /** Trimming twice is trimming once: stored text is already in trimmed form. */
  lemma TrimIdempotent(s: string)
    ensures Trim(Trim(s)) == Trim(s)
  {
    TrimmedIsFixedPoint(Trim(s));
  }

  /** A stored book document (timestamps left out). */
  datatype Book = Book(
    title: string,
    author: string,
    description: Option<string>,
    genre: string,
    price: real,
    stock: int,
    borrowedCount: int,
    publicationYear: int,
    imageUrl: string,
    addedBy: UserId)
  {
    /** Copies on the shelf. */
    function Available(): int { stock - borrowedCount }
  }

  /** The schema paths, as named in a validation error. */
  datatype Field =
    | Title | Author | Description | Genre | Price | Stock | BorrowedCount | PublicationYear | AddedBy

  predicate TitleOk(s: string) { TitleMinLength <= |s| <= TitleMaxLength }
  predicate GenreOk(s: string) { GenreMinLength <= |s| }
  predicate DescriptionOk(s: string) { |s| <= DescriptionMaxLength }
  /** `currentYear` is the year when the schema was compiled (server start). */
  predicate YearOk(y: int, currentYear: int) { EarliestPublicationYear <= y <= currentYear + 1 }

  /** Every constraint of the schema holds of a stored book; then the copies on the shelf number 0 to stock. */
  predicate ValidBook(b: Book, currentYear: int)
    ensures ValidBook(b, currentYear) ==> 0 <= b.Available() <= b.stock
  {
    && TitleOk(b.title) && Trimmed(b.title)
    && TitleOk(b.author) && Trimmed(b.author)
    && (b.description.Some? ==> DescriptionOk(b.description.value))
    && GenreOk(b.genre) && Trimmed(b.genre)
    && b.stock >= 0
    && 0 <= b.borrowedCount <= b.stock
    && YearOk(b.publicationYear, currentYear)
  }

  /** A request body; `None` is a field the client did not send. */
  datatype BookRequest = BookRequest(
    title: Option<string>,
    author: Option<string>,
    description: Option<string>,
    genre: Option<string>,
    price: Option<real>,
    stock: Option<int>,
    borrowedCount: Option<int>,
    publicationYear: Option<int>,
    imageUrl: Option<string>,
    addedBy: Option<UserId>)

  const AllFields: set<Field> :=
    {Title, Author, Description, Genre, Price, Stock, BorrowedCount, PublicationYear, AddedBy}

  /** AllFields names every path of the schema. */
  lemma InAllFields(f: Field)
    ensures f in AllFields
  {
    match f
    case Title => case Author => case Description => case Genre => case Price =>
    case Stock => case BorrowedCount => case PublicationYear => case AddedBy =>
  }

  /** Whether path `f` of a new document built from `req` fails its validator, after trimming and defaults. */
  predicate FailsOnCreate(f: Field, req: BookRequest, currentYear: int) {
    match f
    case Title => req.title.None? || !TitleOk(Trim(req.title.value))
    case Author => req.author.None? || !TitleOk(Trim(req.author.value))
    case Description => req.description.Some? && !DescriptionOk(req.description.value)
    case Genre => req.genre.None? || !GenreOk(Trim(req.genre.value))
    case Price => req.price.None?
    case Stock => req.stock.GetOr(0) < 0
    case BorrowedCount => !(0 <= req.borrowedCount.GetOr(0) <= req.stock.GetOr(0))
    case PublicationYear => req.publicationYear.None? || !YearOk(req.publicationYear.value, currentYear)
    case AddedBy => req.addedBy.None?
  }

  /** The paths Book.create(req) reports in its validation error: exactly the failing ones, a negative stock failing borrowedCount too. */
  function CreateViolations(req: BookRequest, currentYear: int): (r: set<Field>)
    ensures forall f :: f in r <==> FailsOnCreate(f, req, currentYear)
    ensures Stock in r ==> BorrowedCount in r
  {
    forall f: Field ensures f in AllFields { InAllFields(f); }
    set f | f in AllFields && FailsOnCreate(f, req, currentYear)
  }

  /** With no violation, every path of the new document satisfies its validator. */
  lemma NoCreateViolations(req: BookRequest, currentYear: int)
    requires CreateViolations(req, currentYear) == {}
    ensures req.title.Some? && TitleOk(Trim(req.title.value))
    ensures req.author.Some? && TitleOk(Trim(req.author.value))
    ensures req.description.Some? ==> DescriptionOk(req.description.value)
    ensures req.genre.Some? && GenreOk(Trim(req.genre.value))
    ensures req.price.Some? && req.addedBy.Some?
    ensures 0 <= req.borrowedCount.GetOr(0) <= req.stock.GetOr(0)
    ensures req.publicationYear.Some? && YearOk(req.publicationYear.value, currentYear)
  {
    forall f | f in AllFields ensures !FailsOnCreate(f, req, currentYear) {
      assert f !in CreateViolations(req, currentYear);
    }
    assert !FailsOnCreate(Title, req, currentYear);
    assert !FailsOnCreate(Author, req, currentYear);
    assert !FailsOnCreate(Description, req, currentYear);
    assert !FailsOnCreate(Genre, req, currentYear);
    assert !FailsOnCreate(Price, req, currentYear);
    assert !FailsOnCreate(BorrowedCount, req, currentYear);
    assert !FailsOnCreate(PublicationYear, req, currentYear);
    assert !FailsOnCreate(AddedBy, req, currentYear);
  }

  /**
   * Book.create(req): trims, fills the defaults (stock 0, borrowedCount 0,
   * the placeholder cover) and validates; a failure names every offending path.
   */
  function Create(req: BookRequest, currentYear: int): (r: Result<Book, set<Field>>)
    ensures r.Failure? ==> r.error != {} && r.error == CreateViolations(req, currentYear)
    ensures r.Success? ==> ValidBook(r.value, currentYear)
    ensures r.Success? ==>
      && req.title.Some? && r.value.title == Trim(req.title.value)
      && req.author.Some? && r.value.author == Trim(req.author.value)
      && req.genre.Some? && r.value.genre == Trim(req.genre.value)
      && Some(r.value.price) == req.price
      && Some(r.value.publicationYear) == req.publicationYear
      && r.value.stock == req.stock.GetOr(0)
      && r.value.borrowedCount == req.borrowedCount.GetOr(0)
      && r.value.imageUrl == req.imageUrl.GetOr(DefaultImageUrl)
      && r.value.description == req.description
      && Some(r.value.addedBy) == req.addedBy
  {
    var errs := CreateViolations(req, currentYear);
    if errs != {} then Failure(errs)
    else
      NoCreateViolations(req, currentYear);
      Success(Book(
        Trim(req.title.value), Trim(req.author.value), req.description, Trim(req.genre.value),
        req.price.value, req.stock.GetOr(0), req.borrowedCount.GetOr(0),
        req.publicationYear.value, req.imageUrl.GetOr(DefaultImageUrl), req.addedBy.value))
  }

  /** Each path whose validator fails on the request makes create fail, and create's error names that path. */
  lemma CreateReportsEachPath(req: BookRequest, currentYear: int, f: Field)
    ensures Create(req, currentYear).Failure? || !FailsOnCreate(f, req, currentYear)
    ensures FailsOnCreate(f, req, currentYear) ==> f in Create(req, currentYear).error
  {
    if FailsOnCreate(f, req, currentYear) {
      assert f in CreateViolations(req, currentYear);
    }
  }

  /** The request a client would send to create exactly `b`. */
  function AsRequest(b: Book): BookRequest {
    BookRequest(Some(b.title), Some(b.author), b.description, Some(b.genre), Some(b.price),
                Some(b.stock), Some(b.borrowedCount), Some(b.publicationYear), Some(b.imageUrl),
                Some(b.addedBy))
  }

  /** Round trip: the schema accepts every valid book as it is and changes nothing. */
  lemma CreateAcceptsValid(b: Book, currentYear: int)
    requires ValidBook(b, currentYear)
    ensures Create(AsRequest(b), currentYear) == Success(b)
  {
    var req := AsRequest(b);
    TrimmedIsFixedPoint(b.title);
    TrimmedIsFixedPoint(b.author);
    TrimmedIsFixedPoint(b.genre);
    forall f | f in AllFields ensures !FailsOnCreate(f, req, currentYear) {
    }
    assert CreateViolations(req, currentYear) == {};
  }

  /** Whether supplied path `f` of an update fails its validator (update validators run on supplied paths only). */
  predicate FailsOnPatch(f: Field, req: BookRequest, currentYear: int) {
    match f
    case Title => req.title.Some? && !TitleOk(Trim(req.title.value))
    case Author => req.author.Some? && !TitleOk(Trim(req.author.value))
    case Description => req.description.Some? && !DescriptionOk(req.description.value)
    case Genre => req.genre.Some? && !GenreOk(Trim(req.genre.value))
    case PublicationYear => req.publicationYear.Some? && !YearOk(req.publicationYear.value, currentYear)
    case _ => false
  }

  /**
   * The paths an update reports in its validation error: exactly the failing
   * supplied ones, never a path that was left out of the update.
   */
  function PatchViolations(req: BookRequest, currentYear: int): (r: set<Field>)
    ensures forall f :: f in r <==> FailsOnPatch(f, req, currentYear)
    ensures Stock !in r && BorrowedCount !in r
    ensures req.title.None? ==> Title !in r
    ensures req.author.None? ==> Author !in r
    ensures req.genre.None? ==> Genre !in r
    ensures req.description.None? ==> Description !in r
    ensures req.publicationYear.None? ==> PublicationYear !in r
  {
    forall f: Field ensures f in AllFields { InAllFields(f); }
    set f | f in AllFields && FailsOnPatch(f, req, currentYear)
  }

  /** Text written by an update: the trimmed value when supplied, the stored one otherwise. */
  function PatchedText(stored: string, o: Option<string>): string {
    if o.Some? then Trim(o.value) else stored
  }

  /**
   * findByIdAndUpdate(id, fields, {runValidators: true}) where `fields` has had
   * stock and borrowedCount removed: each supplied path is trimmed, validated
   * and written; every other path keeps its value.
   */
  function Patch(b: Book, req: BookRequest, currentYear: int): (r: Result<Book, set<Field>>)
    ensures r.Failure? ==> r.error != {} && r.error == PatchViolations(req, currentYear)
    ensures r.Success? ==> r.value.stock == b.stock && r.value.borrowedCount == b.borrowedCount
    ensures r.Success? ==>
      && r.value.title == PatchedText(b.title, req.title)
      && r.value.author == PatchedText(b.author, req.author)
      && r.value.genre == PatchedText(b.genre, req.genre)
      && r.value.description == (if req.description.Some? then req.description else b.description)
      && r.value.price == req.price.GetOr(b.price)
      && r.value.publicationYear == req.publicationYear.GetOr(b.publicationYear)
      && r.value.imageUrl == req.imageUrl.GetOr(b.imageUrl)
      && r.value.addedBy == req.addedBy.GetOr(b.addedBy)
    ensures req == AsRequest(b).(stock := None, borrowedCount := None) && ValidBook(b, currentYear) ==> r.Success?
  {
    var errs := PatchViolations(req, currentYear);
    if errs != {} then
      Failure(errs)
    else
      Success(b.(
        title := PatchedText(b.title, req.title),
        author := PatchedText(b.author, req.author),
        description := if req.description.Some? then req.description else b.description,
        genre := PatchedText(b.genre, req.genre),
        price := req.price.GetOr(b.price),
        publicationYear := req.publicationYear.GetOr(b.publicationYear),
        imageUrl := req.imageUrl.GetOr(b.imageUrl),
        addedBy := req.addedBy.GetOr(b.addedBy)))
  }

  /** Text an update writes is in trimmed form. */
  lemma PatchedTextTrimmed(stored: string, o: Option<string>)
    requires Trimmed(stored)
    ensures Trimmed(PatchedText(stored, o))
  {
  }

  /** An accepted update keeps a valid book valid. */
  lemma PatchKeepsValid(b: Book, req: BookRequest, currentYear: int)
    requires ValidBook(b, currentYear)
    requires Patch(b, req, currentYear).Success?
    ensures ValidBook(Patch(b, req, currentYear).value, currentYear)
  {
    var p := Patch(b, req, currentYear).value;
    assert PatchViolations(req, currentYear) == {};
    forall f | f in AllFields ensures !FailsOnPatch(f, req, currentYear) {
      assert f !in PatchViolations(req, currentYear);
    }
    assert !FailsOnPatch(Title, req, currentYear) && !FailsOnPatch(Author, req, currentYear);
    assert !FailsOnPatch(Genre, req, currentYear) && !FailsOnPatch(Description, req, currentYear);
    assert !FailsOnPatch(PublicationYear, req, currentYear);
    PatchedTextTrimmed(b.title, req.title);
    PatchedTextTrimmed(b.author, req.author);
    PatchedTextTrimmed(b.genre, req.genre);
  }
}
