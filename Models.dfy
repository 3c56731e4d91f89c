/** The record the scanner hands to the workflow. */
module Models {

  /**
   * One removable Quick Access entry: its selection number, its GUID (the
   * subkey name), its display name, its full registry path, and whether it
   * is protected (always false for a scanned item).
   */
  datatype QuickAccessItem = QuickAccessItem(
    Number: int,
    Guid: string,
    Name: string,
    RegistryPath: string,
    IsProtected: bool)
}
