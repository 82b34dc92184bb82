/**
 * The `Author` entity: an id the store generates on first persist
 * (null until then) and a name. Identity (`equals`) needs both to
 * match; the natural order (`compareTo`) looks at the name only.
 */
module AuthorModel {
  import opened JavaLang

  datatype Author = Author(id: Option<int64>, name: string)
  {
    /** `setId`: the id becomes `newId`, the name stays. */
    function SetId(newId: Option<int64>): (a: Author)
      ensures a.id == newId && a.name == name
    {
      this.(id := newId)
    }

    /** `setName`: the name becomes `newName`, the id stays. */
    function SetName(newName: string): (a: Author)
      ensures a.name == newName && a.id == id
    {
      this.(name := newName)
    }

    /**
     * `equals(Object)`: false for anything that is not an Author (null
     * included); otherwise `Long.equals` on the ids and `String.equals` on
     * the names. It dereferences the receiver's id, hence the requires.
     * Two authors are equal exactly when they are the same value.
     */
    function Equals(other: AnyObject): (eq: bool)
      requires id.Some?
      ensures eq <==> other == AnAuthor(this)
    {
      match other
      case NotAnAuthor => false
      case AnAuthor(that) => that.id.Some? && id.value == that.id.value && name == that.name
    }

    /**
     * `compareTo`: the names' `String.compareTo`. Zero exactly for equal
     * names and negative exactly when this name comes first
     * lexicographically; the ids play no part.
     */
    function CompareTo(other: Author): (c: int)
      ensures c == 0 <==> name == other.name
      ensures c < 0 <==> LexLess(name, other.name)
    {
      CompareStringsIsLexicographic(name, other.name);
      CompareStrings(name, other.name)
    }
  }

  /** What `equals` may be handed: an Author, or null or an object of another class. */
  datatype AnyObject = AnAuthor(author: Author) | NotAnAuthor

  /** The constructor `Author(String name)`: no id yet, the given name. */
  function Named(name: string): (a: Author)
    ensures a.id == None && a.name == name
  {
    Author(None, name)
  }

  /** `compareTo` is antisymmetric: swapping the authors negates the result. */
  lemma CompareToAntisymmetric(a: Author, b: Author)
    ensures a.CompareTo(b) == -b.CompareTo(a)
  {
    CompareStringsAntisymmetric(a.name, b.name);
  }

  /** Ordering authors by `compareTo` is transitive, so sorting them is well defined. */
  lemma CompareToTransitive(a: Author, b: Author, c: Author)
    requires a.CompareTo(b) < 0 && b.CompareTo(c) < 0
    ensures a.CompareTo(c) < 0
  {
    CompareStringsTransitive(a.name, b.name, c.name);
  }

  /**
   * `List.contains(author)` on an `ArrayList`: scans from the front and
   * calls `author.equals(element)` on each element, so the receiver's id
   * must be set. It finds the author exactly when the same value is listed.
   */
  function Contains(list: seq<Author>, author: Author): (found: bool)
    requires author.id.Some?
    ensures found <==> author in list
  {
    if |list| == 0 then false
    else if author.Equals(AnAuthor(list[0])) then true
    else Contains(list[1..], author)
  }
}
