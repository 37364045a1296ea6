/** The post-creation body (posts/dto/create-post.dto.ts) and its validators. */
module CreatePostDto {

  import opened Common

  datatype CreatePostBody = CreatePostBody(title: string, content: string, images: Option<seq<string>>)

  const MinTitleLength: nat := 2
  const MaxTitleLength: nat := 50
  const MaxImages: nat := 5

  /** `@IsNotEmpty` and `@Length(2, 50)` on the title, `@IsNotEmpty` on the
      content, `@IsOptional` and `@ArrayMaxSize(5)` on the images. */
  predicate IsValid(b: CreatePostBody) {
    && b.title != "" && MinTitleLength <= |b.title| <= MaxTitleLength
    && b.content != ""
    && (b.images.Some? ==> |b.images.value| <= MaxImages)
  }

  /** The image URLs `createPost` stores: none when the list is absent or
      empty (`if (images && images.length > 0)`). */
  function ImageUrls(images: Option<seq<string>>): (urls: seq<string>)
    ensures images.None? ==> urls == []
    ensures images.Some? ==> urls == images.value
  {
    if images.Some? && |images.value| > 0 then images.value else []
  }

  /** An accepted body has a title of 2 to 50 characters, a non-empty content,
      and at most five image URLs to store. */
  lemma ValidBody(b: CreatePostBody)
    requires IsValid(b)
    ensures 2 <= |b.title| <= 50 && |b.content| >= 1
    ensures |ImageUrls(b.images)| <= 5
  {
  }
}
