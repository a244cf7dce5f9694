/** The two kinds of like and the karma each one is worth. */
module Karma {

  /** Which table a like row lives in: `PostLike` or `CommentLike`. */
  datatype Kind = OnPost | OnComment

  /** Karma points a like of the given kind earns the liked item's author. */
  function Points(kind: Kind): (p: int)
    ensures p > 0
    ensures p == 5 <==> kind == OnPost
    ensures p == 1 <==> kind == OnComment
  {
    match kind
    case OnPost => 5
    case OnComment => 1
  }
}
