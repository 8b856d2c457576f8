/** The top-level controller: its six pieces of state, the handlers that
    change them, and the UI guards that say when each handler can run. The
    image-editing call is not modelled here: its outcome is an input of
    `Complete`. */
module Controller {
  import opened Wrappers
  import ImageUploader

  /** The source's enum, with its member names. */
  datatype ProcessingStatus = IDLE | UPLOADING | PROCESSING | SUCCESS | ERROR

  /** How the asynchronous image-editing call ended. */
  datatype ServiceOutcome = Resolved(image: string) | Rejected

  /** The arguments the controller passes to the image-editing call. */
  datatype ServiceCall = ServiceCall(image: string, mimeType: string, instruction: string)

  const ProcessingErrorMessage: string := "处理图片时发生错误。请稍后重试或尝试不同的图片。"

  /** JavaScript truthiness of a `string | null`. */
  predicate Truthy(s: Option<string>) {
    s.Some? && s.value != ""
  }

  class App {
    var originalImage: Option<string>
    var processedImage: Option<string>
    var status: ProcessingStatus
    var errorMessage: Option<string>
    var customInstruction: string
    var fileData: Option<ImageUploader.File>
    /** Number of image-editing calls started and not yet completed. */
    ghost var inFlight: nat

    /** The invariant every handler keeps. */
    ghost predicate Valid()
      reads this
    {
      && status != UPLOADING
      && (processedImage.Some? <==> status == SUCCESS)
      && (errorMessage.Some? <==> status == ERROR)
      && (errorMessage.Some? ==> errorMessage.value == ProcessingErrorMessage)
      && (originalImage.Some? <==> fileData.Some?)
      && (originalImage.Some? ==> originalImage.value != "")
      && (status != IDLE ==> originalImage.Some?)
      && inFlight == (if status == PROCESSING then 1 else 0)
    }

    constructor ()
      ensures Valid()
      ensures originalImage == None && processedImage == None && fileData == None
      ensures status == IDLE && errorMessage == None && customInstruction == ""
      ensures inFlight == 0
    {
      originalImage := None;
      processedImage := None;
      status := IDLE;
      errorMessage := None;
      customInstruction := "";
      fileData := None;
      inFlight := 0;
    }

    // The UI guards.

    /** The drop-zone is shown only while there is no original image. */
    predicate UploaderShown()
      reads this
    {
      !Truthy(originalImage)
    }

    /** The reset button is disabled while processing. */
    predicate ResetEnabled()
      reads this
    {
      status != PROCESSING
    }

    /** The process button and the instruction box are disabled while
        processing and after success. */
    predicate ProcessEnabled()
      reads this
    {
      status != PROCESSING && status != SUCCESS
    }

    /** The re-edit button is shown only after success. */
    predicate ReEditOffered()
      reads this
    {
      status == SUCCESS
    }

    /** The before/after comparison replaces the plain preview. */
    predicate ComparisonShown()
      reads this
    {
      status == SUCCESS && Truthy(processedImage)
    }

    /** `handleImageSelected`, called by the drop-zone with a non-empty data URL. */
    method SelectImage(dataUrl: string, file: ImageUploader.File)
      requires Valid() && UploaderShown()
      requires dataUrl != ""
      modifies this
      ensures Valid()
      ensures originalImage == Some(dataUrl) && fileData == Some(file)
      ensures processedImage == None && errorMessage == None && status == IDLE
      ensures customInstruction == old(customInstruction)
    {
      originalImage := Some(dataUrl);
      processedImage := None;
      fileData := Some(file);
      status := IDLE;
      errorMessage := None;
    }

    /** `handleReset` */
    method Reset()
      requires Valid() && ResetEnabled()
      modifies this
      ensures Valid()
      ensures originalImage == None && processedImage == None && fileData == None
      ensures status == IDLE && errorMessage == None && customInstruction == ""
    {
      originalImage := None;
      processedImage := None;
      fileData := None;
      status := IDLE;
      errorMessage := None;
      customInstruction := "";
    }

    /** The instruction box's `onChange`. */
    method EditInstruction(text: string)
      requires Valid() && ProcessEnabled()
      modifies this
      ensures Valid()
      ensures customInstruction == text
      ensures originalImage == old(originalImage) && processedImage == old(processedImage)
      ensures status == old(status) && errorMessage == old(errorMessage) && fileData == old(fileData)
    {
      customInstruction := text;
    }

    /** The synchronous first half of `handleProcess`: returns the call it
        starts, or `None` when there is no image or file. */
    method StartProcess() returns (call: Option<ServiceCall>)
      requires Valid() && ProcessEnabled()
      modifies this
      ensures Valid()
      ensures call.None? <==> !Truthy(old(originalImage)) || old(fileData).None?
      ensures call.None? ==> unchanged(this)
      ensures call.Some? ==>
        && call.value == ServiceCall(old(originalImage).value, old(fileData).value.mimeType, old(customInstruction))
        && status == PROCESSING && errorMessage == None && inFlight == 1
        && originalImage == old(originalImage) && processedImage == old(processedImage)
        && fileData == old(fileData) && customInstruction == old(customInstruction)
    {
      if !Truthy(originalImage) || fileData.None? {
        return None;
      }
      status := PROCESSING;
      errorMessage := None;
      inFlight := inFlight + 1;
      call := Some(ServiceCall(originalImage.value, fileData.value.mimeType, customInstruction));
    }

    /** The asynchronous second half of `handleProcess`, once the call ends. */
    method Complete(outcome: ServiceOutcome)
      requires Valid() && status == PROCESSING
      modifies this
      ensures Valid()
      ensures inFlight == 0
      ensures outcome.Resolved? ==>
        processedImage == Some(outcome.image) && status == SUCCESS && errorMessage == None
      ensures outcome.Rejected? ==>
        processedImage == old(processedImage) && status == ERROR && errorMessage == Some(ProcessingErrorMessage)
      ensures originalImage == old(originalImage) && fileData == old(fileData)
      ensures customInstruction == old(customInstruction)
    {
      inFlight := inFlight - 1;
      match outcome {
        case Resolved(image) =>
          processedImage := Some(image);
          status := SUCCESS;
        case Rejected =>
          status := ERROR;
          errorMessage := Some(ProcessingErrorMessage);
      }
    }

    /** The re-edit button's `onClick`. */
    method ReEdit()
      requires Valid() && ReEditOffered()
      modifies this
      ensures Valid()
      ensures status == IDLE && processedImage == None
      ensures originalImage == old(originalImage) && fileData == old(fileData)
      ensures customInstruction == old(customInstruction) && errorMessage == old(errorMessage)
    {
      status := IDLE;
      processedImage := None;
    }

    /** In every reachable state at most one call is in flight, a result is
        held only in SUCCESS, an error message only in ERROR, and the
        comparison is shown only in SUCCESS with a result. */
    lemma ReachableStateFacts()
      requires Valid()
      ensures inFlight <= 1
      ensures processedImage.Some? ==> status == SUCCESS
      ensures errorMessage.Some? <==> status == ERROR
      ensures ComparisonShown() ==> status == SUCCESS && processedImage.Some?
      ensures status == PROCESSING ==> !ProcessEnabled() && !ResetEnabled()
    {
    }
  }
}
