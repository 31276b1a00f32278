/**
 * Values shared by the readers, the writer and the driver of the script that
 * turns the MIMIC-CXR sectioned report file and the MEDIQA 2021 split file
 * into per-split JSON datasets.
 */
module Records {

  /** One row as csv.DictReader yields it: column name to cell text. */
  type Row = map<string, string>

  /** A (study_id, subject_id) pair taken from one row of the split file. */
  datatype IdPair = IdPair(studyId: string, subjectId: string)

  /** One element of an output JSON array. */
  datatype Entry = Entry(
    studyId: string,
    subjectId: string,
    findings: string,
    impression: string,
    background: string)

  /** The exceptions the script raises; every one of them ends the run. */
  datatype Error =
    | NoOutputPath                       // none of --train_file, --dev_file, --test_file
    | BadSplitFormat(filename: string)   // split file not named *.csv; the message names the file
    | BadSectionedFormat                 // report file neither *.csv.gz nor *.csv; a fixed message
    | KeyError(key: string)              // a missing column, or a study id with no report

  datatype Option<+T> = None | Some(value: T)

  datatype Result<+T> = Success(value: T) | Failure(error: Error)
}
