// The error codes of the update archive.
module ArchiveErrors {
  datatype ArchiveError =
    | ArchiveTar | ArchivePath | ArchiveRoot | ArchiveLimit | ArchiveSymlink | ArchivePermission
    | ArchiveTree | ArchiveGzip | ArchiveTrailingData
    | StagingPath | StagingRead | StagingWrite | StagingRename
}
