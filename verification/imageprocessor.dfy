/** The image run: source face, input image, reference face, process, write. */
module ImageProcessor {
  import opened Wrappers
  import opened Types
  import opened Config
  import opened FaceAnalyser
  import opened FaceProcessor

  /** How an image run ended when no exception escaped it. */
  datatype ImageOutcome =
    | NoSourceFace              // nothing read, nothing written
    | BlankInput                // the input image has no non-zero pixel
    | NoReferenceFace           // no face at the configured position
    | Written(image: Frame)     // the one image written to the output file

  /**
    `ImageProcessor.run`: the output is written, once, exactly when the
    source face is found, the input image is not blank and the reference
    face is found, and it is what `process` makes of the input image.
  */
  function RunImage(e: Engines, c: Configuration, mode: Mode, sourceImage: Frame, inputImage: Frame): (r: Result<ImageOutcome>)
    ensures FindSourceFaceInImage(e, sourceImage) == Ok(None) ==> r == Ok(NoSourceFace)
    ensures FindSourceFaceInImage(e, sourceImage).Raised? ==> r.Raised?
    ensures (&& FindSourceFaceInImage(e, sourceImage).Ok? && FindSourceFaceInImage(e, sourceImage).value.Some?
             && AnyNonZero(inputImage) && FindReferenceFace(e, c, inputImage).Raised?)
            ==> r.Raised?
    ensures (&& FindSourceFaceInImage(e, sourceImage).Ok? && FindSourceFaceInImage(e, sourceImage).value.Some?
             && !AnyNonZero(inputImage))
            ==> r == Ok(BlankInput)
    ensures (&& FindSourceFaceInImage(e, sourceImage).Ok? && FindSourceFaceInImage(e, sourceImage).value.Some?
             && AnyNonZero(inputImage) && FindReferenceFace(e, c, inputImage) == Ok(None))
            ==> r == Ok(NoReferenceFace)
    ensures r.Ok? && r.value.Written? ==>
      && FindSourceFaceInImage(e, sourceImage).Ok? && FindSourceFaceInImage(e, sourceImage).value.Some?
      && AnyNonZero(inputImage)
      && FindReferenceFace(e, c, inputImage).Ok? && FindReferenceFace(e, c, inputImage).value.Some?
      && r.value.image == Process(e, c, mode, FindSourceFaceInImage(e, sourceImage).value.value,
                                  FindReferenceFace(e, c, inputImage).value.value, inputImage)
    ensures (&& FindSourceFaceInImage(e, sourceImage).Ok? && FindSourceFaceInImage(e, sourceImage).value.Some?
             && AnyNonZero(inputImage)
             && FindReferenceFace(e, c, inputImage).Ok? && FindReferenceFace(e, c, inputImage).value.Some?)
            ==> r.Ok? && r.value.Written?
  {
    var source :- FindSourceFaceInImage(e, sourceImage);
    if source.None? then Ok(NoSourceFace)
    else if !AnyNonZero(inputImage) then Ok(BlankInput)
    else
      var reference :- FindReferenceFace(e, c, inputImage);
      if reference.None? then Ok(NoReferenceFace)
      else Ok(Written(Process(e, c, mode, source.value, reference.value, inputImage)))
  }

  /**
    The source face is looked up before the input image is read: when that
    lookup does not find a face, the input image makes no difference.
  */
  lemma SourceLookupComesFirst(e: Engines, c: Configuration, mode: Mode, sourceImage: Frame, inputImage1: Frame, inputImage2: Frame)
    requires !(FindSourceFaceInImage(e, sourceImage).Ok? && FindSourceFaceInImage(e, sourceImage).value.Some?)
    ensures RunImage(e, c, mode, sourceImage, inputImage1) == RunImage(e, c, mode, sourceImage, inputImage2)
  {
  }

  /** The written image does not depend on `restore_face`: the face is always restored. */
  lemma ImageIgnoresRestoreFlag(e: Engines, c: Configuration, mode: Mode, sourceImage: Frame, inputImage: Frame)
    ensures RunImage(e, c, mode, sourceImage, inputImage)
         == RunImage(e, c.(restoreFace := !c.restoreFace), mode, sourceImage, inputImage)
  {
    var source := FindSourceFaceInImage(e, sourceImage);
    var reference := FindReferenceFace(e, c, inputImage);
    if source.Ok? && source.value.Some? && reference.Ok? && reference.value.Some? {
      ProcessIgnoresRestoreFlag(e, c, mode, source.value.value, reference.value.value, inputImage);
    }
  }
}
