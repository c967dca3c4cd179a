/** The data the chart is drawn from: the movie dataset is a root whose
    children are genres, and each genre's children are leaf movies. */
module Movies {

  /** One movie: the leaf record `{ name, category, value }`. The value is
      the box-office figure; it arrives as a numeric string and is used as a
      number, so it is modelled as an integer. */
  datatype Leaf = Leaf(name: string, category: string, value: int)

  /** A genre node of the parsed dataset. Its `children` array is the one
      the preparation step sorts in place. */
  class Genre {
    var name: string
    var children: array<Leaf>

    constructor (name: string, children: array<Leaf>)
      ensures this.name == name && this.children == children
    {
      this.name := name;
      this.children := children;
    }
  }
}
