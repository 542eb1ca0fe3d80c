/** `predict_damage`: preprocess the image, score it, decide the detections
    and save a copy of the image, falling back to the input path when saving
    fails. Image decoding, the network and the file system are outside the
    model: their outcomes arrive as parameters. */
module DamagePrediction {
  import opened Wrappers
  import opened Threshold
  import opened Paths

  /** The preprocessed batch (1 x 224 x 224 x 3, flattened). Its contents
      matter only to the scoring function. */
  datatype Tensor = Tensor(values: seq<real>)

  /** How opening, converting, resizing and normalising the image went. */
  datatype ImageLoad = Decoded(tensor: Tensor) | FileNotFound | ProcessingFailed

  /** `preprocess_image`: the tensor, or nothing when the file is missing or
      any processing step raised. */
  function PreprocessImage(load: ImageLoad): (processed: Option<Tensor>)
    ensures processed.Some? <==> load.Decoded?
    ensures processed.Some? ==> processed.value == load.tensor
  {
    match load
    case Decoded(t) => Some(t)
    case FileNotFound => None
    case ProcessingFailed => None
  }

  /** `predict_damage(image_path, result_folder)`. `score` stands for
      `model.predict` on the loaded network, `labels` for the loaded class
      catalog, and `saved` for whether creating the folder, reopening the
      image and saving its copy all succeeded. */
  method PredictDamage(imagePath: string, resultFolder: string, labels: seq<string>,
                       load: ImageLoad, score: Tensor -> seq<real>, saved: bool)
    returns (resultPath: Option<string>, damageInfo: seq<DamageEntry>)
    requires load.Decoded? ==> |score(load.tensor)| == |labels|
    ensures resultPath.Some? <==> load.Decoded?
    ensures damageInfo == [] <==> !load.Decoded?
    ensures load.Decoded? ==> damageInfo == DamageInfo(labels, score(load.tensor))
    ensures load.Decoded? && saved ==> resultPath == Some(ResultPath(resultFolder, imagePath))
    ensures load.Decoded? && !saved ==> resultPath == Some(imagePath)
  {
    var processedImage := PreprocessImage(load);
    if processedImage.None? {
      return None, [];
    }

    var predictions := score(processedImage.value);
    damageInfo := DecideDamage(labels, predictions);
    SentinelExactlyWhenNothingQualifies(labels, predictions);

    var path: string;
    if saved {
      path := ResultPath(resultFolder, imagePath);
    } else {
      path := imagePath;
    }
    resultPath := Some(path);
  }
}
