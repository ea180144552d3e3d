/** The guard of `download_artwork`: the request it would make, or the
    `NoArtwork` it raises first. The image request and the file write are
    not modelled. */
module Artwork {
  import opened Wrappers
  import opened Sanitiser

  datatype ArtworkError = NoArtwork(message: string)

  /** The image variant the bot posts. */
  const ArtCrop: string := "art_crop"

  /** `download_artwork` up to its one request: `Success(uri)` is the single
      URL it fetches, `Failure` is the `NoArtwork` raised with no request
      made. */
  function ArtworkRequest(card: Card): (r: Result<string, ArtworkError>)
    ensures r.Failure? <==> ArtCrop !in card.images
    ensures r.Failure? ==> r.error == NoArtwork("No artwork for " + card.name)
    ensures r.Success? ==> ArtCrop in card.images && r.value == card.images[ArtCrop]
  {
    if ArtCrop !in card.images then Failure(NoArtwork("No artwork for " + card.name))
    else Success(card.images[ArtCrop])
  }

  /** A valid record without `image_uris` sanitises to a card whose artwork
      download always raises. */
  lemma NoImageUrisNoArtwork(raw: RawCard)
    requires Sanitisable(raw) && !IsInvalid(raw) && raw.imageUris.None?
    ensures ArtworkRequest(Sanitised(raw).value).Failure?
  {
  }
}
