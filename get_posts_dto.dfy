/** The feed query (posts/dto/get-posts.dto.ts) and its validators. */
module GetPostsDto {

  import opened Common
  import Pagination

  /** A query parameter after `@Type(() => Number)`: an integer, or a number
      that is not one (NaN or a fraction). */
  datatype QueryNumber = Integer(value: int) | NotInteger

  datatype GetPostsQuery = GetPostsQuery(cursor: Option<QueryNumber>, limit: Option<QueryNumber>)

  /** `@IsOptional @IsInt` on the cursor; `@IsOptional @IsInt @Min(1) @Max(100)`
      on the limit. */
  predicate IsValid(q: GetPostsQuery) {
    && (q.cursor.Some? ==> q.cursor.value.Integer?)
    && (q.limit.Some? ==> q.limit.value.Integer? && 1 <= q.limit.value.value <= 100)
  }

  /** The arguments the controller passes on to `getPosts`. */
  function Cursor(q: GetPostsQuery): Option<int>
    requires IsValid(q)
  {
    if q.cursor.Some? then Some(q.cursor.value.value) else None
  }

  function Limit(q: GetPostsQuery): Option<int>
    requires IsValid(q)
  {
    if q.limit.Some? then Some(q.limit.value.value) else None
  }

  /** A limit the query validator accepts is left unchanged by the service's
      clamp, and an absent one becomes the default 20. */
  lemma AcceptedLimitUnchanged(q: GetPostsQuery)
    requires IsValid(q)
    ensures q.limit.Some? ==> Pagination.ClampLimit(Limit(q)) == q.limit.value.value
    ensures q.limit.None? ==> Pagination.ClampLimit(Limit(q)) == 20
  {
  }
}
